// The write-row / read-column order of one block-interleaver window
// (src/fec/interleaver.rs), in closed form: a window of `filled` bytes has
// filled / 255 full rows, and the columns before filled % 255 hold one row more.

module BlockOrder {
  import opened Format
  import opened Permutations

  function Rows(filled: nat, col: nat): nat {
    filled / RS_BLOCK + if col < filled % RS_BLOCK then 1 else 0
  }

  // Where column `col` begins in the output.
  function Start(filled: nat, col: nat): nat {
    col * (filled / RS_BLOCK) + Min(col, filled % RS_BLOCK)
  }

  // The window offset read out at output place k.
  function SourceOf(filled: nat, k: nat): nat
    requires k < filled
  {
    var r, rem := filled / RS_BLOCK, filled % RS_BLOCK;
    var tall := rem * (r + 1);
    if k < tall then
      k % (r + 1) * RS_BLOCK + k / (r + 1)
    else
      assert r > 0;
      (k - tall) % r * RS_BLOCK + rem + (k - tall) / r
  }

  // The output place of window offset idx.
  function PositionOf(filled: nat, idx: nat): nat {
    Start(filled, idx % RS_BLOCK) + idx / RS_BLOCK
  }

  function ReadOrder(filled: nat): (p: seq<nat>)
    ensures |p| == filled
  {
    seq(filled, k requires 0 <= k < filled => SourceOf(filled, k))
  }

  lemma StartStep(filled: nat, col: nat)
    ensures Start(filled, col + 1) == Start(filled, col) + Rows(filled, col)
  {
  }

  lemma StartMono(filled: nat, col: nat, col': nat)
    requires col <= col'
    ensures Start(filled, col) <= Start(filled, col')
  {
  }

  lemma StartEnd(filled: nat)
    ensures Start(filled, RS_BLOCK) == filled
  {
  }

  lemma {:induction false} CellInRange(filled: nat, col: nat, row: nat)
    requires col < RS_BLOCK && row < Rows(filled, col)
    ensures Start(filled, col) + row < Start(filled, col + 1) <= filled
    ensures row * RS_BLOCK + col < filled
  {
    StartStep(filled, col);
    StartMono(filled, col + 1, RS_BLOCK);
    StartEnd(filled);
  }

  lemma {:induction false} SourceInTallColumn(filled: nat, col: nat, row: nat)
    requires col < filled % RS_BLOCK && row <= filled / RS_BLOCK
    requires Start(filled, col) + row < filled
    ensures SourceOf(filled, Start(filled, col) + row) == row * RS_BLOCK + col
  {
    var r, rem := filled / RS_BLOCK, filled % RS_BLOCK;
    var k := Start(filled, col) + row;
    assert col * (r + 1) == col * r + col;
    assert (col + 1) * (r + 1) == col * (r + 1) + r + 1;
    MulMono(col + 1, rem, r + 1);
    DivModUnique(k, r + 1, col, row);
  }

  lemma {:induction false} SourceInShortColumn(filled: nat, col: nat, row: nat)
    requires filled % RS_BLOCK <= col && row < filled / RS_BLOCK
    requires Start(filled, col) + row < filled
    ensures SourceOf(filled, Start(filled, col) + row) == row * RS_BLOCK + col
  {
    var r, rem := filled / RS_BLOCK, filled % RS_BLOCK;
    var k, tall := Start(filled, col) + row, rem * (r + 1);
    assert tall == rem * r + rem;
    MulMono(rem, col, r);
    assert (col - rem) * r == col * r - rem * r;
    DivModUnique(k - tall, r, col - rem, row);
  }

  // Row `row` of column `col` is cell row * 255 + col, read at Start(col) + row.
  lemma {:induction false} SourceAt(filled: nat, col: nat, row: nat)
    requires col < RS_BLOCK && row < Rows(filled, col)
    ensures Start(filled, col) + row < Start(filled, col + 1) <= filled
    ensures SourceOf(filled, Start(filled, col) + row) == row * RS_BLOCK + col < filled
  {
    CellInRange(filled, col, row);
    if col < filled % RS_BLOCK {
      SourceInTallColumn(filled, col, row);
    } else {
      SourceInShortColumn(filled, col, row);
    }
  }

  // Every output place lies in some column, at one of its filled rows.
  lemma Locate(filled: nat, k: nat) returns (col: nat, row: nat)
    requires k < filled
    ensures col < RS_BLOCK && row < Rows(filled, col) && k == Start(filled, col) + row
  {
    var r, rem := filled / RS_BLOCK, filled % RS_BLOCK;
    var tall := rem * (r + 1);
    if k < tall {
      col, row := Quotient(k, r + 1, rem);
      assert col * (r + 1) == col * r + col;
    } else {
      var q;
      var len := RS_BLOCK - rem;
      assert tall == rem * r + rem;
      assert len * r == RS_BLOCK * r - rem * r;
      assert r > 0;
      q, row := Quotient(k - tall, r, len);
      col := rem + q;
      assert col * r == rem * r + q * r;
    }
  }

  lemma Quotient(a: nat, b: nat, bound: nat) returns (q: nat, r: nat)
    requires b > 0 && a < bound * b
    ensures q < bound && r < b && a == q * b + r
  {
    q, r := a / b, a % b;
    DivModFacts(a, b);
    if q >= bound {
      MulMono(bound, q, b);
    }
  }

  lemma {:induction false} PositionOfSource(filled: nat, k: nat)
    requires k < filled
    ensures SourceOf(filled, k) < filled
    ensures PositionOf(filled, SourceOf(filled, k)) == k
  {
    var col, row := Locate(filled, k);
    SourceAt(filled, col, row);
    DivModUnique(row * RS_BLOCK + col, RS_BLOCK, row, col);
  }

  lemma {:induction false} SourceOfPosition(filled: nat, idx: nat)
    requires idx < filled
    ensures PositionOf(filled, idx) < filled
    ensures SourceOf(filled, PositionOf(filled, idx)) == idx
  {
    SourceAt(filled, idx % RS_BLOCK, idx / RS_BLOCK);
  }

  lemma {:induction false} ReadOrderIsPerm(filled: nat)
    ensures IsPerm(ReadOrder(filled))
  {
    var p := ReadOrder(filled);
    forall k | 0 <= k < filled ensures p[k] < filled {
      PositionOfSource(filled, k);
    }
    forall k, l | 0 <= k < l < filled ensures p[k] != p[l] {
      PositionOfSource(filled, k);
      PositionOfSource(filled, l);
    }
    forall v | 0 <= v < filled ensures v in p {
      SourceOfPosition(filled, v);
      assert p[PositionOf(filled, v)] == v;
    }
  }

  lemma {:induction false} IndexOfReadOrder(filled: nat, idx: nat)
    requires idx < filled && IsPerm(ReadOrder(filled))
    ensures IndexOf(ReadOrder(filled), idx) == PositionOf(filled, idx)
  {
    SourceOfPosition(filled, idx);
    IndexOfUnique(ReadOrder(filled), PositionOf(filled, idx));
  }

  // The nested loops: every column, every row, keeping the filled cells.
  method WindowOrder(depth: nat, filled: nat) returns (perm: seq<nat>)
    requires filled <= depth * RS_BLOCK
    ensures perm == ReadOrder(filled)
  {
    ghost var p := ReadOrder(filled);
    perm := [];
    for col := 0 to RS_BLOCK
      invariant Start(filled, col) <= filled
      invariant perm == p[..Start(filled, col)]
    {
      StartStep(filled, col);
      StartMono(filled, col + 1, RS_BLOCK);
      StartEnd(filled);
      for row := 0 to depth
        invariant perm == p[..Start(filled, col) + Min(row, Rows(filled, col))]
      {
        var idx := row * RS_BLOCK + col;
        if idx < filled {
          SourceAt(filled, col, row);
          perm := perm + [idx];
        }
      }
      assert Rows(filled, col) <= depth;
    }
    StartEnd(filled);
  }
}
