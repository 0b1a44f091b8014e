// Fixed-width little-endian integers: to_le_bytes and from_le_bytes.

module LittleEndian {
  import opened Format

  // Excess high bits are dropped, as by a fixed-width integer.
  function ToBytes(n: nat, len: nat): (b: Bytes)
    ensures |b| == len
  {
    if len == 0 then [] else [(n % 256) as byte] + ToBytes(n / 256, len - 1)
  }

  function FromBytes(b: Bytes): nat {
    if b == [] then 0 else b[0] as nat + 256 * FromBytes(b[1..])
  }

  function Capacity(len: nat): (c: nat)
    ensures c > 0
  {
    if len == 0 then 1 else 256 * Capacity(len - 1)
  }

  lemma {:induction false} ValueOfBytes(n: nat, len: nat)
    requires n < Capacity(len)
    ensures FromBytes(ToBytes(n, len)) == n
  {
    if len > 0 {
      ValueOfBytes(n / 256, len - 1);
      assert ToBytes(n, len)[1..] == ToBytes(n / 256, len - 1);
    }
  }

  lemma {:induction false} BytesOfValue(b: Bytes)
    ensures FromBytes(b) < Capacity(|b|)
    ensures ToBytes(FromBytes(b), |b|) == b
  {
    if b != [] {
      BytesOfValue(b[1..]);
      var n, hi := FromBytes(b), FromBytes(b[1..]);
      assert n == 256 * hi + b[0] as nat;
      assert n % 256 == b[0] as nat && n / 256 == hi;
      assert ToBytes(n, |b|) == [b[0]] + ToBytes(hi, |b| - 1);
    }
  }

  lemma ToBytesInjective(m: nat, n: nat, len: nat)
    requires m < Capacity(len) && n < Capacity(len)
    requires ToBytes(m, len) == ToBytes(n, len)
    ensures m == n
  {
    ValueOfBytes(m, len);
    ValueOfBytes(n, len);
  }
}
