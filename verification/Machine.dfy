/** Fixed-width integers of the driver and the byte swaps of the modern ring layout. */
module Machine {
  type u8 = x: int | 0 <= x < 0x100
  type u16 = x: int | 0 <= x < 0x1_0000
  type u32 = x: int | 0 <= x < 0x1_0000_0000
  type u64 = x: int | 0 <= x < 0x1_0000_0000_0000_0000
  type i64 = x: int | -0x8000_0000_0000_0000 <= x < 0x8000_0000_0000_0000

  function Swap16(v: u16): (r: u16) {
    v % 0x100 * 0x100 + v / 0x100
  }

  function Swap32(v: u32): (r: u32) {
    Swap16(v % 0x1_0000) * 0x1_0000 + Swap16(v / 0x1_0000)
  }

  function Swap64(v: u64): (r: u64) {
    Swap32(v % 0x1_0000_0000) * 0x1_0000_0000 + Swap32(v / 0x1_0000_0000)
  }

  /** `vr16`, `vr32` and `vr64`: ring fields are little-endian on a modern queue
      and native on a legacy one. The same function reads and writes. */
  function Vr16(modern: bool, v: u16): (r: u16)
    ensures (if modern then Swap16(r) else r) == v
  {
    if modern then Swap16(v) else v
  }

  function Vr32(modern: bool, v: u32): (r: u32)
    ensures (if modern then Swap32(r) else r) == v
  {
    Swap32Involutive(v);
    if modern then Swap32(v) else v
  }

  function Vr64(modern: bool, v: u64): (r: u64)
    ensures (if modern then Swap64(r) else r) == v
  {
    Swap64Involutive(v);
    if modern then Swap64(v) else v
  }

  lemma Halves(hi: int, lo: int, base: int)
    requires base in {0x100, 0x1_0000, 0x1_0000_0000} && 0 <= lo < base && 0 <= hi
    ensures (hi * base + lo) % base == lo && (hi * base + lo) / base == hi
  {
  }

  lemma Swap16Involutive(v: u16)
    ensures Swap16(Swap16(v)) == v
  {
    Halves(v % 0x100, v / 0x100, 0x100);
  }

  lemma Swap32Involutive(v: u32)
    ensures Swap32(Swap32(v)) == v
  {
    hide Swap16;
    Halves(Swap16(v % 0x1_0000), Swap16(v / 0x1_0000), 0x1_0000);
    Swap16Involutive(v % 0x1_0000);
    Swap16Involutive(v / 0x1_0000);
  }

  lemma Swap64Involutive(v: u64)
    ensures Swap64(Swap64(v)) == v
  {
    hide Swap32;
    Halves(Swap32(v % 0x1_0000_0000), Swap32(v / 0x1_0000_0000), 0x1_0000_0000);
    Swap32Involutive(v % 0x1_0000_0000);
    Swap32Involutive(v / 0x1_0000_0000);
  }

  /** `(int)` of an unsigned 32-bit count: the one signed number with the same low 32 bits. */
  function AsInt(n: u32): (i: int)
    ensures -0x8000_0000 <= i < 0x8000_0000 && (i - n) % 0x1_0000_0000 == 0
  {
    if n < 0x8000_0000 then n as int else n as int - 0x1_0000_0000
  }
}
