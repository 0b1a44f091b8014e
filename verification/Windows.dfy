// Windowed permutation of a stream: windows of `win` bytes, the last one short,
// window w permuted by order(filled, w). Both interleaving layers of
// src/fec/interleaver.rs have this shape.

module Windows {
  import opened Format
  import opened Permutations

  // Read order of a window, from its filled length and its index.
  type Order = (nat, nat) --> seq<nat>

  // Bytes held by the window that contains place x.
  function FilledAt(win: nat, n: nat, x: nat): (filled: nat)
    requires win > 0 && x < n
    ensures x - x / win * win < filled <= win
    ensures x / win * win + filled <= n
  {
    DivModFacts(x, win);
    Min(win, n - x / win * win)
  }

  ghost predicate PermutesAt(win: nat, n: nat, order: Order, x: nat)
    requires win > 0 && x < n
  {
    var filled, w := FilledAt(win, n, x), x / win;
    order.requires(filled, w) && |order(filled, w)| == filled && IsPerm(order(filled, w))
  }

  // Every window of an n-byte stream has its permutation.
  ghost predicate Permutes(win: nat, n: nat, order: Order)
    requires win > 0
  {
    forall x: nat :: x < n ==> PermutesAt(win, n, order, x)
  }

  // The stream place that output place x is read from.
  function SourceIndex(win: nat, order: Order, n: nat, x: nat): (j: nat)
    requires win > 0 && x < n && Permutes(win, n, order)
    ensures j < n && j / win == x / win
  {
    assert PermutesAt(win, n, order, x);
    var w := x / win;
    var filled := FilledAt(win, n, x);
    var p := order(filled, w);
    var j := w * win + p[x - w * win];
    DivModUnique(j, win, w, p[x - w * win]);
    j
  }

  // The output place that stream place j is read into.
  function TargetIndex(win: nat, order: Order, n: nat, j: nat): (x: nat)
    requires win > 0 && j < n && Permutes(win, n, order)
    ensures x < n && x / win == j / win
  {
    assert PermutesAt(win, n, order, j);
    var w := j / win;
    var filled := FilledAt(win, n, j);
    var k := IndexOf(order(filled, w), j - w * win);
    DivModUnique(w * win + k, win, w, k);
    w * win + k
  }

  lemma {:induction false} SourceInWindow(win: nat, order: Order, n: nat, w: nat, base: nat, k: nat)
    requires win > 0 && Permutes(win, n, order) && base == w * win && base < n && k < Min(n - base, win)
    ensures var filled := Min(n - base, win);
            && order.requires(filled, w) && |order(filled, w)| == filled
            && SourceIndex(win, order, n, base + k) == base + order(filled, w)[k]
  {
    InWindow(win, n, w, base, k);
    assert PermutesAt(win, n, order, base + k);
  }

  lemma SourceOfTarget(win: nat, order: Order, n: nat, j: nat)
    requires win > 0 && j < n && Permutes(win, n, order)
    ensures SourceIndex(win, order, n, TargetIndex(win, order, n, j)) == j
  {
  }

  lemma {:induction false} TargetOfSource(win: nat, order: Order, n: nat, x: nat)
    requires win > 0 && x < n && Permutes(win, n, order)
    ensures TargetIndex(win, order, n, SourceIndex(win, order, n, x)) == x
  {
    assert PermutesAt(win, n, order, x);
    var w := x / win;
    IndexOfUnique(order(FilledAt(win, n, x), w), x - w * win);
  }

  function Interleaved<T>(win: nat, order: Order, s: seq<T>): (r: seq<T>)
    requires win > 0 && Permutes(win, |s|, order)
    ensures |r| == |s|
  {
    seq(|s|, x requires 0 <= x < |s| => s[SourceIndex(win, order, |s|, x)])
  }

  function Deinterleaved<T>(win: nat, order: Order, s: seq<T>): (r: seq<T>)
    requires win > 0 && Permutes(win, |s|, order)
    ensures |r| == |s|
  {
    seq(|s|, j requires 0 <= j < |s| => s[TargetIndex(win, order, |s|, j)])
  }

  // The two directions undo each other at every stream length.
  lemma {:induction false} WindowedRoundTrip<T>(win: nat, order: Order, s: seq<T>)
    requires win > 0 && Permutes(win, |s|, order)
    ensures Deinterleaved(win, order, Interleaved(win, order, s)) == s
    ensures Interleaved(win, order, Deinterleaved(win, order, s)) == s
  {
    forall x | 0 <= x < |s|
      ensures Deinterleaved(win, order, Interleaved(win, order, s))[x] == s[x]
      ensures Interleaved(win, order, Deinterleaved(win, order, s))[x] == s[x]
    {
      SourceOfTarget(win, order, |s|, x);
      TargetOfSource(win, order, |s|, x);
    }
  }

  // Window arithmetic for the loops, which keep `base` and `w` instead of dividing.
  lemma {:induction false} InWindow(win: nat, n: nat, w: nat, base: nat, k: nat)
    requires win > 0 && base == w * win && base < n && k < Min(n - base, win)
    ensures (base + k) / win == w && FilledAt(win, n, base + k) == Min(n - base, win)
  {
    DivModUnique(base + k, win, w, k);
  }

  // One window of the gather loop: output place k is read from perm[k].
  method GatherWindow(stream: Bytes, base: nat, perm: seq<nat>, out: array<byte>)
    requires IsPerm(perm) && base + |perm| <= |stream| == out.Length
    modifies out
    ensures forall x :: 0 <= x < out.Length && !(base <= x < base + |perm|) ==> out[x] == old(out[x])
    ensures forall k :: 0 <= k < |perm| ==> out[base + k] == stream[base + perm[k]]
  {
    for k := 0 to |perm|
      invariant forall x :: 0 <= x < out.Length && !(base <= x < base + k) ==> out[x] == old(out[x])
      invariant forall i :: 0 <= i < k ==> out[base + i] == stream[base + perm[i]]
    {
      out[base + k] := stream[base + perm[k]];
    }
  }

  // One window of the scatter loop: input place k is written to perm[k], and
  // every cell of the window is written exactly once.
  method ScatterWindow(stream: Bytes, base: nat, perm: seq<nat>, out: array<byte>) returns (ghost writes: seq<nat>)
    requires IsPerm(perm) && base + |perm| <= |stream| == out.Length
    modifies out
    ensures forall x :: 0 <= x < out.Length && !(base <= x < base + |perm|) ==> out[x] == old(out[x])
    ensures forall j :: 0 <= j < |perm| ==> out[base + j] == stream[base + IndexOf(perm, j)]
    ensures |writes| == |perm| && forall j :: 0 <= j < |perm| ==> writes[j] == 1
  {
    writes := seq(|perm|, _ => 0);
    for k := 0 to |perm|
      invariant forall x :: 0 <= x < out.Length && !(base <= x < base + |perm|) ==> out[x] == old(out[x])
      invariant forall i :: 0 <= i < k ==> out[base + perm[i]] == stream[base + i]
      invariant |writes| == |perm|
      invariant forall j :: 0 <= j < |perm| ==> writes[j] == if IndexOf(perm, j) < k then 1 else 0
    {
      out[base + perm[k]] := stream[base + k];
      IndexOfUnique(perm, k);
      writes := writes[perm[k] := writes[perm[k]] + 1];
    }
  }

  // Where the loops stand: at the start of window w, or past the last one.
  ghost predicate AtWindow(win: nat, n: nat, w: nat, base: nat) {
    base <= n && (base == w * win || base == n)
  }

  // The loops stand at a window whose order is a permutation.
  lemma {:induction false} OrderAtWindow(win: nat, n: nat, order: Order, w: nat, base: nat)
    requires win > 0 && Permutes(win, n, order) && AtWindow(win, n, w, base) && base < n
    ensures var filled := Min(n - base, win);
            order.requires(filled, w) && |order(filled, w)| == filled && IsPerm(order(filled, w))
  {
    InWindow(win, n, w, base, 0);
    assert PermutesAt(win, n, order, base);
  }

  // The loop body of both `interleave` functions.
  method GatherNext(stream: Bytes, base: nat, perm: seq<nat>, out: array<byte>,
                    ghost win: nat, ghost order: Order, ghost w: nat)
    requires win > 0 && Permutes(win, |stream|, order)
    requires AtWindow(win, |stream|, w, base) && base < |stream| == out.Length
    requires |perm| == Min(|stream| - base, win) && order.requires(|perm|, w) && perm == order(|perm|, w)
    requires out[..base] == Interleaved(win, order, stream)[..base]
    modifies out
    ensures AtWindow(win, |stream|, w + 1, base + |perm|)
    ensures out[..base + |perm|] == Interleaved(win, order, stream)[..base + |perm|]
  {
    ghost var goal := Interleaved(win, order, stream);
    OrderAtWindow(win, |stream|, order, w, base);
    GatherWindow(stream, base, perm, out);
    assert (w + 1) * win == w * win + win;
    forall x | base <= x < base + |perm| ensures out[x] == goal[x] {
      InWindow(win, |stream|, w, base, x - base);
      assert out[base + (x - base)] == stream[base + perm[x - base]];
    }
    assert forall x :: 0 <= x < base ==> out[x] == old(out[..base])[x] == goal[..base][x] == goal[x];
  }

  // The loop body of both `deinterleave` functions.
  method ScatterNext(stream: Bytes, base: nat, perm: seq<nat>, out: array<byte>,
                     ghost win: nat, ghost order: Order, ghost w: nat)
    requires win > 0 && Permutes(win, |stream|, order)
    requires AtWindow(win, |stream|, w, base) && base < |stream| == out.Length
    requires |perm| == Min(|stream| - base, win) && order.requires(|perm|, w) && perm == order(|perm|, w)
    requires out[..base] == Deinterleaved(win, order, stream)[..base]
    modifies out
    ensures AtWindow(win, |stream|, w + 1, base + |perm|)
    ensures out[..base + |perm|] == Deinterleaved(win, order, stream)[..base + |perm|]
  {
    ghost var goal := Deinterleaved(win, order, stream);
    OrderAtWindow(win, |stream|, order, w, base);
    ghost var _ := ScatterWindow(stream, base, perm, out);
    assert (w + 1) * win == w * win + win;
    forall x | base <= x < base + |perm| ensures out[x] == goal[x] {
      InWindow(win, |stream|, w, base, x - base);
      assert out[base + (x - base)] == stream[base + IndexOf(perm, x - base)];
    }
    assert forall x :: 0 <= x < base ==> out[x] == old(out[..base])[x] == goal[..base][x] == goal[x];
  }

  // ----- When the loops end -----

  // Where they stand after k passes over an n-byte stream.
  function BaseAfter(win: nat, n: nat, k: nat): (base: nat)
    ensures base <= n
  {
    if k == 0 then 0
    else
      var base := BaseAfter(win, n, k - 1);
      base + Min(n - base, win)
  }

  lemma PassStep(win: nat, n: nat, k: nat)
    ensures BaseAfter(win, n, 0) == 0
    ensures BaseAfter(win, n, k + 1) == BaseAfter(win, n, k) + Min(n - BaseAfter(win, n, k), win)
  {
  }

  lemma {:induction false} EachPassAdvances(win: nat, n: nat, k: nat)
    ensures win > 0 ==> BaseAfter(win, n, k) >= Min(n, k)
    ensures win == 0 ==> BaseAfter(win, n, k) == 0
  {
    if k > 0 {
      EachPassAdvances(win, n, k - 1);
    }
  }

  // Some pass reaches the end of the stream, exactly when the window is not
  // empty or the stream is.
  lemma {:induction false} LoopEndsExactly(win: nat, n: nat)
    ensures (exists k: nat :: BaseAfter(win, n, k) == n) <==> win > 0 || n == 0
  {
    if win > 0 {
      EachPassAdvances(win, n, n);
    } else {
      forall k: nat ensures BaseAfter(win, n, k) == 0 {
        EachPassAdvances(win, n, k);
      }
      assert BaseAfter(win, n, 0) == 0;
    }
  }
}
