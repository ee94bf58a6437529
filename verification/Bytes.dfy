/** Machine integers, little-endian fields and small sequence helpers shared by every module. */
module Bytes {
  type u8 = x: int | 0 <= x < 0x100
  type u16 = x: int | 0 <= x < 0x1_0000
  type u32 = x: int | 0 <= x < 0x1_0000_0000

  const TWO16 := 0x1_0000
  const TWO32 := 0x1_0000_0000

  datatype Option<+T> = None | Some(value: T)

  /** C's `a - b` on uint32_t: it wraps when b is the later instant. */
  function Sub32(a: u32, b: u32): (d: u32)
    ensures b <= a ==> d == a - b
    ensures a < b ==> d == a - b + TWO32
  {
    (a - b) % TWO32
  }

  function Min(a: nat, b: nat): nat {
    if a <= b then a else b
  }

  function Zeros(n: nat): (z: seq<u8>)
    ensures |z| == n && forall i :: 0 <= i < n ==> z[i] == 0
  {
    seq(n, _ => 0)
  }

  function Le16(v: u16): (b: seq<u8>)
    ensures |b| == 2 && b[0] as int + 0x100 * b[1] as int == v
  {
    [v % 0x100, v / 0x100]
  }

  function Le32(v: u32): (b: seq<u8>)
    ensures |b| == 4
  {
    [v % 0x100, v / 0x100 % 0x100, v / 0x1_0000 % 0x100, v / 0x100_0000]
  }

  /** The little-endian 16-bit field at `off`. */
  function U16At(b: seq<u8>, off: nat): u16
    requires off + 2 <= |b|
  {
    b[off] as int + 0x100 * b[off + 1] as int
  }

  /** The little-endian 32-bit field at `off`. */
  function U32At(b: seq<u8>, off: nat): u32
    requires off + 4 <= |b|
  {
    b[off] as int + 0x100 * b[off + 1] as int + 0x1_0000 * b[off + 2] as int + 0x100_0000 * b[off + 3] as int
  }

  /** The lowest byte comes first. */
  lemma LittleEndian(v: u32)
    ensures var b := Le32(v);
            b[0] as int + 0x100 * b[1] as int + 0x1_0000 * b[2] as int + 0x100_0000 * b[3] as int == v
  {
    assert v / 0x1_0000 == v / 0x100 / 0x100 && v / 0x100_0000 == v / 0x1_0000 / 0x100;
  }

  /** A little-endian field stored at `off` is read back unchanged. */
  lemma U32Stored(b: seq<u8>, off: nat, v: u32)
    requires off + 4 <= |b| && b[off..off + 4] == Le32(v)
    ensures U32At(b, off) == v
  {
    var f := b[off..off + 4];
    assert b[off] == f[0] && b[off + 1] == f[1] && b[off + 2] == f[2] && b[off + 3] == f[3];
    LittleEndian(v);
  }

  lemma U16Stored(b: seq<u8>, off: nat, v: u16)
    requires off + 2 <= |b| && b[off..off + 2] == Le16(v)
    ensures U16At(b, off) == v
  {
    var f := b[off..off + 2];
    assert b[off] == f[0] && b[off + 1] == f[1];
  }

  lemma SliceOfSlice(b: seq<u8>, from: nat, to: nat, i: nat, j: nat)
    requires from <= to <= |b| && i <= j <= to - from
    ensures b[from..to][i..j] == b[from + i..from + j]
  {
    var whole := b[from..to];
    forall k | 0 <= k < j - i ensures whole[i..j][k] == b[from + i..from + j][k] {
      assert whole[i + k] == b[from + i + k];
    }
  }
}
