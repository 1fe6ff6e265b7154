/** Bytes and fixed-width unsigned words, with the two byte orders the
    container uses: little-endian for payload integers (`write_u8/16/32/64`,
    `read_u8/16/32/64`) and big-endian for the 32-bit header fields and
    block-length prefixes (`PACK_BE32`, `UNPACK_BE32`).

    Unsigned values are bounded `nat`s; the source's `(u >> 8k) & 0xff`
    is `(u / 256^k) % 256` and its `|` of shifted bytes is a sum, since
    the shifted bytes occupy disjoint bits. */
module Bytes {
  import opened Arith

  type byte = x: int | 0 <= x < 0x100
  type u16 = x: int | 0 <= x < 0x1_0000
  type u32 = x: int | 0 <= x < 0x1_0000_0000
  type u64 = x: int | 0 <= x < 0x1_0000_0000_0000_0000

  const TWO_32: nat := 0x1_0000_0000
  const TWO_64: nat := 0x1_0000_0000_0000_0000

  /** Dropping a prefix of `a + b` that lies inside `a`. */
  lemma SliceAppend<T>(a: seq<T>, b: seq<T>, k: nat)
    requires k <= |a|
    ensures (a + b)[k..] == a[k..] + b && (a + b)[..k] == a[..k]
  {
  }

  lemma AppendAssoc<T>(a: seq<T>, b: seq<T>, c: seq<T>)
    ensures a + (b + c) == (a + b) + c
  {
  }

  /** A window holding `x + y` holds `x` and then `y`. */
  lemma SplitWindow<T>(data: seq<T>, at: nat, x: seq<T>, y: seq<T>)
    requires at + |x| + |y| <= |data| && data[at..at + |x| + |y|] == x + y
    ensures data[at..at + |x|] == x && data[at + |x|..at + |x| + |y|] == y
  {
    assert data[at..at + |x|] == (x + y)[..|x|];
    assert data[at + |x|..at + |x| + |y|] == (x + y)[|x|..];
  }

  lemma PrefixOfPrefix<T>(s: seq<T>, i: nat, j: nat)
    requires i <= j <= |s|
    ensures s[..j][..i] == s[..i]
  {
  }

  /** The ranges of the fixed widths the read and write routines use. */
  lemma Widths()
    ensures Pow(256, 1) == 0x100 && Pow(256, 2) == 0x1_0000
    ensures Pow(256, 4) == TWO_32 && Pow(256, 8) == TWO_64
  {
    assert Pow(256, 2) == 256 * Pow(256, 1);
    assert Pow(256, 3) == 256 * Pow(256, 2);
    assert Pow(256, 4) == 256 * Pow(256, 3);
    assert Pow(256, 5) == 256 * Pow(256, 4);
    assert Pow(256, 6) == 256 * Pow(256, 5);
    assert Pow(256, 7) == 256 * Pow(256, 6);
    assert Pow(256, 8) == 256 * Pow(256, 7);
  }

  /** `n` zero bytes. */
  function Zeros(n: nat): (r: seq<byte>)
    ensures |r| == n && forall i | 0 <= i < n :: r[i] == 0
  {
    seq(n, _ => 0)
  }

  /** The `n` bytes `write_uN` stores for `u`: byte `k` is `(u >> 8k) & 0xff`. */
  function LE(u: nat, n: nat): (r: seq<byte>)
    ensures |r| == n
  {
    if n == 0 then [] else [u % 256] + LE(u / 256, n - 1)
  }

  /** The value `read_uN` assembles from `bs`: byte `k` shifted left by `8k`. */
  function FromLE(bs: seq<byte>): (v: nat)
    ensures v < Pow(256, |bs|)
  {
    if |bs| == 0 then 0 else bs[0] + 256 * FromLE(bs[1..])
  }

  /** Reading back the bytes written for `u` gives `u` truncated to `n` bytes. */
  lemma {:induction false} FromLEOfLE(u: nat, n: nat)
    ensures FromLE(LE(u, n)) == u % Pow(256, n)
  {
    if n > 0 {
      FromLEOfLE(u / 256, n - 1);
      DivModProduct(u, 256, Pow(256, n - 1));
      assert LE(u, n)[1..] == LE(u / 256, n - 1);
    }
  }

  /** Writing back the value read from `bs` gives `bs`: byte order loses nothing. */
  lemma {:induction false} LEOfFromLE(bs: seq<byte>)
    ensures LE(FromLE(bs), |bs|) == bs
  {
    if |bs| > 0 {
      var v := FromLE(bs);
      DivModUnique(v, 256, FromLE(bs[1..]), bs[0]);
      LEOfFromLE(bs[1..]);
      assert LE(v, |bs|) == [bs[0]] + bs[1..];
    }
  }

  /** Width-`n` round trip for a value that fits in `n` bytes. */
  lemma LERoundTrip(u: nat, n: nat)
    requires u < Pow(256, n)
    ensures FromLE(LE(u, n)) == u
  {
    FromLEOfLE(u, n);
  }

  /** `PACK_BE32(u)`: the four bytes of `u`, most significant first. Bits of
      `u` above 32 are dropped, as the source's `& 0xff` masks do. */
  function PackBE32(u: nat): (r: seq<byte>)
    ensures |r| == 4
  {
    [(u / 0x100_0000) % 0x100, (u / 0x1_0000) % 0x100, (u / 0x100) % 0x100, u % 0x100]
  }

  /** `UNPACK_BE32(b)`: the 32-bit value of `b[0..4]`, most significant first. */
  function UnpackBE32(b: seq<byte>): (u: u32)
    requires |b| >= 4
  {
    (b[0] as int) * 0x100_0000 + (b[1] as int) * 0x1_0000 + (b[2] as int) * 0x100 + b[3] as int
  }

  /** Unpacking what was packed gives the value modulo 2^32 (itself for a u32). */
  lemma BE32RoundTrip(u: nat)
    ensures UnpackBE32(PackBE32(u)) == u % TWO_32
  {
    DivModProduct(u, 0x100_0000, 0x100);
    DivModProduct(u, 0x1_0000, 0x100);
    DivModProduct(u, 0x100, 0x100);
  }

  /** Packing what was unpacked gives the same four bytes. */
  lemma BE32Inverse(b: seq<byte>)
    requires |b| == 4
    ensures PackBE32(UnpackBE32(b)) == b
  {
    var u := UnpackBE32(b);
    DivModUnique(u, 0x100_0000, b[0], (b[1] as int) * 0x1_0000 + (b[2] as int) * 0x100 + b[3] as int);
    DivModUnique(u, 0x1_0000, (b[0] as int) * 0x100 + b[1] as int, (b[2] as int) * 0x100 + b[3] as int);
    DivModUnique(u, 0x100, (b[0] as int) * 0x1_0000 + (b[1] as int) * 0x100 + b[2] as int, b[3]);
    DivModUnique((b[0] as int) * 0x1_0000 + (b[1] as int) * 0x100 + b[2] as int, 0x100,
                 (b[0] as int) * 0x100 + b[1] as int, b[2]);
    DivModUnique((b[0] as int) * 0x100 + b[1] as int, 0x100, b[0], b[1]);
  }
}
