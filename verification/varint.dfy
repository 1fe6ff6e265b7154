/** The variable-length integer codec of `fbuf_put_uint`/`fbuf_get_uint`
    (unsigned LEB128, section 7.6 of DWARF version 4) and the zig-zag map of
    `fbuf_put_int`/`fbuf_get_int`. */
module Varint {
  import opened Arith
  import opened Bytes

  /** The bytes `fbuf_put_uint` emits for `v`: seven bits at a time, least
      significant group first (`val & 0x7f`, then `val >>= 7`), with the
      high bit set while bits remain. */
  function EncodeUint(v: nat): (r: seq<byte>)
    ensures 1 <= |r|
    ensures forall k | 0 <= k < |r| - 1 :: r[k] >= 0x80
    ensures r[|r| - 1] < 0x80
    ensures GroupValue(r) == v
    ensures v < Pow(128, |r|) && (|r| > 1 ==> Pow(128, |r| - 1) <= v)
    decreases v
  {
    var low, rest := v % 128, v / 128;
    if rest == 0 then [low] else [low + 0x80] + EncodeUint(rest)
  }

  /** The number the low seven bits of `bs` spell, least significant group first. */
  function GroupValue(bs: seq<byte>): nat {
    if |bs| == 0 then 0 else bs[0] % 128 + 128 * GroupValue(bs[1..])
  }

  /** Zero is the single byte 0x00. */
  lemma EncodeZero()
    ensures EncodeUint(0) == [0]
  {
  }

  /** A 64-bit value needs at most ten bytes. */
  lemma EncodeUintAtMostTen(v: u64)
    ensures |EncodeUint(v)| <= 10
  {
    var n := |EncodeUint(v)|;
    if n > 10 {
      PowMonotone(128, 10, n - 1);
    }
  }

  /** Reducing before shifting in a group gives the same 64-bit result. */
  lemma ShiftInGroup(x: nat, g: byte)
    requires g < 0x80
    ensures ((x % TWO_64) * 128 + g) % TWO_64 == (g % 128 + 128 * x) % TWO_64
  {
    var q := x / TWO_64;
    assert g % 128 + 128 * x == (g + (x % TWO_64) * 128) + (128 * q) * TWO_64;
    ModAdd(g + (x % TWO_64) * 128, (128 * q) * TWO_64, TWO_64);
    DivModUnique((128 * q) * TWO_64, TWO_64, 128 * q, 0);
    ModAdd((128 * q) * TWO_64, g + (x % TWO_64) * 128, TWO_64);
  }

  type i64 = x: int | -0x8000_0000_0000_0000 <= x < 0x8000_0000_0000_0000

  const ALL_ONES: nat := TWO_64 - 1
  const TWO_63: nat := 0x8000_0000_0000_0000

  /** The 64-bit two's complement pattern of `v`. */
  function Bits(v: i64): u64 {
    if v < 0 then v + TWO_64 else v
  }

  /** The signed value of the 64-bit pattern `x`. */
  function Signed(x: u64): i64 {
    if x < TWO_63 then x else x - TWO_64
  }

  /** `(val << 1) ^ (val >> 63)`: the shift keeps the low 64 bits of the
      doubled pattern; the arithmetic shift is all ones for a negative `val`
      and zero otherwise, and XOR with all ones is `ALL_ONES - x`. The result
      interleaves the signs: 0, -1, 1, -2, 2, ... map to 0, 1, 2, 3, 4, ... */
  function ZigZag(v: i64): (zz: u64)
    ensures zz == if v >= 0 then 2 * v else -2 * v - 1
  {
    var shifted := (Bits(v) * 2) % TWO_64;
    if v < 0 then ALL_ONES - shifted else shifted
  }

  /** `(zz >> 1) ^ -(zz & 1)`: `-(zz & 1)` is all ones for an odd `zz` and
      zero for an even one; the pattern is read back as a signed value. */
  function UnZigZag(zz: u64): (v: i64)
    ensures zz % 2 == 0 ==> v == zz / 2
    ensures zz % 2 == 1 ==> v == -(zz / 2) - 1
  {
    var half := zz / 2;
    Signed(if zz % 2 == 1 then ALL_ONES - half else half)
  }

  /** `fbuf_get_int` after `fbuf_put_int` gives back every 64-bit value. */
  lemma ZigZagRoundTrip(v: i64)
    ensures UnZigZag(ZigZag(v)) == v
  {
  }

  /** Every 64-bit code is the zig-zag image of some value: the map is a bijection. */
  lemma ZigZagOnto(zz: u64)
    ensures ZigZag(UnZigZag(zz)) == zz
  {
  }
}
