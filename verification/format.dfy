/** The container layout of `src/fbuf.c`: size constants, the 16-byte
    header, the block frame (4-byte big-endian compressed length, then the
    compressed bytes), the close-time header rewrite, and the contract of
    the external FastLZ compressor. */
module Format {
  import opened Arith
  import opened Bytes
  import opened Checksum

  /** The scratch-buffer size; no block, compressed or not, may exceed it. */
  const SPILL_SIZE: nat := 65536
  /** The pending-buffer limit: one sixteenth below the spill size, so that a
      compressed block always fits in one spill buffer. */
  const BLOCK_SIZE: nat := SPILL_SIZE - SPILL_SIZE / 16
  /** FastLZ's smallest input; shorter blocks are padded with zeros. */
  const MIN_BLOCK: nat := 16

  /** "FBUF". */
  const MAGIC: seq<byte> := [0x46, 0x42, 0x55, 0x46]
  /** `FBUF_ZIP_FASTLZ`, the only compression tag the reader accepts ('F'). */
  const ZIP_FASTLZ: byte := 0x46

  /** The external compressor at effort level 2. On every block a writer
      can flush -- shorter than `BLOCK_SIZE + MIN_BLOCK` bytes -- its output
      is never empty and always shorter than the spill size: the property
      the source asserts after every call. */
  type Compressor = f: seq<byte> -> seq<byte> | forall x | |x| < BLOCK_SIZE + MIN_BLOCK :: 0 < |f(x)| < SPILL_SIZE
    witness (x: seq<byte>) => [0]

  /** The external decompressor: the bytes it reconstructs from its input
      (FastLZ itself reports them only if they fit its output limit). */
  type Decompressor = seq<byte> -> seq<byte>

  /** The header `fbuf_write_header` writes: magic, compression tag,
      checksum tag, then ten zero bytes (two unused, and placeholders for
      the length and the checksum). */
  function Header(zip: byte, algo: Algo): (h: seq<byte>)
    ensures |h| == 16 && h[..4] == MAGIC && h[4] == zip && h[5] == Tag(algo)
    ensures forall k | 6 <= k < 16 :: h[k] == 0
    ensures UnpackBE32(h[8..]) == 0 && UnpackBE32(h[12..]) == 0
  {
    MAGIC + [zip, Tag(algo)] + Zeros(10)
  }

  /** One block on disk: `PACK_BE32` of the compressed length, then the
      compressed bytes. */
  function Frame(c: seq<byte> -> seq<byte>, block: seq<byte>): (r: seq<byte>)
    ensures |r| == 4 + |c(block)| && r[4..] == c(block)
    ensures UnpackBE32(r) == |c(block)| % TWO_32
  {
    var out := c(block);
    BE32RoundTrip(|out|);
    PackBE32(|out|) + out
  }

  /** A frame's length prefix is the compressed length when that is below
      the spill size, as every output of the compressor is. */
  lemma FrameLength(c: seq<byte> -> seq<byte>, block: seq<byte>)
    requires |c(block)| < SPILL_SIZE
    ensures UnpackBE32(Frame(c, block)) == |c(block)|
  {
    DivModUnique(|c(block)|, TWO_32, 0, |c(block)|);
  }

  /** The frames of `blocks`, in order. */
  function Frames(c: seq<byte> -> seq<byte>, blocks: seq<seq<byte>>): seq<byte> {
    if |blocks| == 0 then [] else Frames(c, blocks[..|blocks| - 1]) + Frame(c, blocks[|blocks| - 1])
  }

  /** The uncompressed contents of `blocks`, in order. */
  function Concat(blocks: seq<seq<byte>>): seq<byte> {
    if |blocks| == 0 then [] else Concat(blocks[..|blocks| - 1]) + blocks[|blocks| - 1]
  }

  lemma FramesSnoc(c: seq<byte> -> seq<byte>, blocks: seq<seq<byte>>, b: seq<byte>)
    ensures Frames(c, blocks + [b]) == Frames(c, blocks) + Frame(c, b)
  {
    assert (blocks + [b])[..|blocks|] == blocks;
  }

  lemma ConcatSnoc(blocks: seq<seq<byte>>, b: seq<byte>)
    ensures Concat(blocks + [b]) == Concat(blocks) + b
  {
    assert (blocks + [b])[..|blocks|] == blocks;
  }

  /** The frames of a list of blocks are the frames of any prefix followed
      by the frames of the rest. */
  lemma {:induction false} FramesSplit(c: seq<byte> -> seq<byte>, blocks: seq<seq<byte>>, k: nat)
    requires k <= |blocks|
    ensures Frames(c, blocks) == Frames(c, blocks[..k]) + Frames(c, blocks[k..])
    decreases |blocks|
  {
    if k == |blocks| {
      assert blocks[..k] == blocks;
      assert Frames(c, blocks[k..]) == [];
    } else {
      var init := blocks[..|blocks| - 1];
      var last := blocks[|blocks| - 1];
      var a, b, l := Frames(c, blocks[..k]), Frames(c, init[k..]), Frame(c, last);
      assert Frames(c, blocks) == Frames(c, init) + l;
      assert Frames(c, init) == a + b by {
        FramesSplit(c, init, k);
        assert init[..k] == blocks[..k];
      }
      assert Frames(c, blocks[k..]) == b + l by {
        var rest := blocks[k..];
        assert rest[..|rest| - 1] == init[k..];
      }
      AppendAssoc(a, b, l);
    }
  }

  /** The contents of a list of blocks are the contents of any prefix
      followed by the contents of the rest. */
  lemma {:induction false} ConcatSplit(blocks: seq<seq<byte>>, k: nat)
    requires k <= |blocks|
    ensures Concat(blocks) == Concat(blocks[..k]) + Concat(blocks[k..])
    decreases |blocks|
  {
    if k == |blocks| {
      assert blocks[..k] == blocks;
      assert Concat(blocks[k..]) == [];
    } else {
      var init := blocks[..|blocks| - 1];
      var last := blocks[|blocks| - 1];
      var a, b := Concat(blocks[..k]), Concat(init[k..]);
      assert Concat(blocks) == Concat(init) + last;
      assert Concat(init) == a + b by {
        ConcatSplit(init, k);
        assert init[..k] == blocks[..k];
      }
      assert Concat(blocks[k..]) == b + last by {
        var rest := blocks[k..];
        assert rest[..|rest| - 1] == init[k..];
      }
      AppendAssoc(a, b, last);
    }
  }

  /** The first frame comes first. */
  lemma FramesCons(c: seq<byte> -> seq<byte>, blocks: seq<seq<byte>>)
    requires |blocks| > 0
    ensures Frames(c, blocks) == Frame(c, blocks[0]) + Frames(c, blocks[1..])
    ensures Concat(blocks) == blocks[0] + Concat(blocks[1..])
  {
    FirstFrame(c, blocks);
    FirstBlock(blocks);
  }

  lemma {:induction false} FirstFrame(c: seq<byte> -> seq<byte>, blocks: seq<seq<byte>>)
    requires |blocks| > 0
    ensures Frames(c, blocks) == Frame(c, blocks[0]) + Frames(c, blocks[1..])
  {
    assert blocks[..1] == [] + [blocks[0]];
    FramesSnoc(c, [], blocks[0]);
    FramesSplit(c, blocks, 1);
  }

  lemma {:induction false} FirstBlock(blocks: seq<seq<byte>>)
    requires |blocks| > 0
    ensures Concat(blocks) == blocks[0] + Concat(blocks[1..])
  {
    assert blocks[..1] == [] + [blocks[0]];
    ConcatSnoc([], blocks[0]);
    ConcatSplit(blocks, 1);
  }

  /** The eight bytes `fbuf_update_header` writes: the total as a 32-bit
      big-endian value, then the checksum value. */
  function Trailer(wtotal: nat, checksum: u32): (f: seq<byte>)
    ensures |f| == 8
    ensures UnpackBE32(f) == wtotal % TWO_32 && UnpackBE32(f[4..]) == checksum
  {
    var f := PackBE32(wtotal) + PackBE32(checksum);
    BE32RoundTrip(wtotal);
    BE32RoundTrip(checksum);
    SliceAppend(PackBE32(wtotal), PackBE32(checksum), 4);
    f
  }

  /** `fbuf_update_header`: the trailer written over header bytes 8..16 of a
      seekable sink, or appended to a FIFO, which cannot seek back. */
  function UpdateHeader(sink: seq<byte>, fifo: bool, wtotal: nat, checksum: u32): (r: seq<byte>)
    requires |sink| >= 16
    ensures fifo ==> r == sink + Trailer(wtotal, checksum)
    ensures !fifo ==> |r| == |sink| && r[..8] == sink[..8] && r[16..] == sink[16..]
                      && r[8..16] == Trailer(wtotal, checksum)
  {
    var f := Trailer(wtotal, checksum);
    if fifo then sink + f else sink[..8] + f + sink[16..]
  }
}
