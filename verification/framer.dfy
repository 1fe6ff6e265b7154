/** The write side of a session in `src/fbuf.c`: the pending buffer, the
    flush decision of `fbuf_maybe_flush`, and the primitive write calls
    (`write_u8/16/32/64`, `write_raw`, `fbuf_put_uint`, `fbuf_put_int`).

    The sink is the sequence of bytes written to the file so far. Besides
    the source's fields the writer keeps `blocks`, the uncompressed contents
    of the blocks already written; the source keeps only their total,
    `wtotal`. */
module Framer {
  import opened Bytes
  import opened Checksum
  import opened Format
  import opened Varint

  datatype Writer = Writer(
    cs: State,                // running checksum over the flushed blocks
    wbuf: seq<byte>,          // the pending bytes; `wpend` is |wbuf|
    wtotal: nat,              // uncompressed bytes flushed so far
    sink: seq<byte>,          // bytes written to the file so far
    blocks: seq<seq<byte>>,   // uncompressed contents of the flushed blocks
    fifo: bool)               // the file is a FIFO and cannot seek

  /** What every writer satisfies between calls: the sink is the header
      followed by one frame per flushed block, `wtotal` counts the flushed
      bytes, and the checksum has folded exactly those bytes, in order. */
  predicate Consistent(w: Writer, c: Compressor, algo: Algo) {
    && |w.sink| >= 16
    && w.sink[..16] == Header(ZIP_FASTLZ, algo)
    && w.sink[16..] == Frames(c, w.blocks)
    && w.wtotal == |Concat(w.blocks)|
    && w.cs == Update(Init(algo), Concat(w.blocks))
    && forall k | 0 <= k < |w.blocks| :: MIN_BLOCK <= |w.blocks[k]| < BLOCK_SIZE + MIN_BLOCK
  }

  /** `fbuf_new` for writing: checksum initialised, header written, nothing pending. */
  function NewWriter(algo: Algo, fifo: bool): (w: Writer)
  {
    Writer(Init(algo), [], 0, Header(ZIP_FASTLZ, algo), [], fifo)
  }

  lemma NewWriterConsistent(algo: Algo, fifo: bool, c: Compressor)
    ensures var w := NewWriter(algo, fifo);
      Consistent(w, c, algo) && w.wbuf == [] && Concat(w.blocks) == []
  {
    var w := NewWriter(algo, fifo);
    assert w.sink[16..] == [];
  }

  /** The pending bytes as flushed: zero-padded to 16 bytes if shorter. */
  function Padded(wbuf: seq<byte>): (block: seq<byte>)
    ensures |block| == if |wbuf| < MIN_BLOCK then MIN_BLOCK else |wbuf|
    ensures block[..|wbuf|] == wbuf && block[|wbuf|..] == Zeros(|block| - |wbuf|)
  {
    if |wbuf| < MIN_BLOCK then wbuf + Zeros(MIN_BLOCK - |wbuf|) else wbuf
  }

  /** The flush itself: pad to 16 bytes, fold the block into the checksum,
      compress it, write its length and its compressed bytes, count it in
      `wtotal`, and empty the pending buffer. */
  function EmitBlock(w: Writer, c: Compressor): (r: Writer)
    requires |w.wbuf| < BLOCK_SIZE + MIN_BLOCK
    ensures r.wbuf == [] && r.fifo == w.fifo
    ensures r.blocks == w.blocks + [Padded(w.wbuf)]
    ensures r.wtotal == w.wtotal + |Padded(w.wbuf)|
    ensures r.cs == Update(w.cs, Padded(w.wbuf))
    ensures r.sink == w.sink + Frame(c, Padded(w.wbuf))
  {
    var block := Padded(w.wbuf);
    Writer(Update(w.cs, block), [], w.wtotal + |block|, w.sink + Frame(c, block),
           w.blocks + [block], w.fifo)
  }

  lemma EmitBlockConsistent(w: Writer, c: Compressor, algo: Algo)
    requires Consistent(w, c, algo) && |w.wbuf| < BLOCK_SIZE + MIN_BLOCK
    ensures Consistent(EmitBlock(w, c), c, algo)
    ensures Concat(EmitBlock(w, c).blocks) == Concat(w.blocks) + Padded(w.wbuf)
  {
    var r := EmitBlock(w, c);
    var block := Padded(w.wbuf);
    SliceAppend(w.sink, Frame(c, block), 16);
    FramesSnoc(c, w.blocks, block);
    ConcatSnoc(w.blocks, block);
    UpdateConcat(Init(algo), Concat(w.blocks), block);
    SizesSnoc(w.blocks, block);
  }

  lemma SizesSnoc(blocks: seq<seq<byte>>, b: seq<byte>)
    requires forall k | 0 <= k < |blocks| :: MIN_BLOCK <= |blocks[k]| < BLOCK_SIZE + MIN_BLOCK
    requires MIN_BLOCK <= |b| < BLOCK_SIZE + MIN_BLOCK
    ensures forall k | 0 <= k < |blocks + [b]| :: MIN_BLOCK <= |(blocks + [b])[k]| < BLOCK_SIZE + MIN_BLOCK
  {
    forall k | 0 <= k < |blocks + [b]|
      ensures MIN_BLOCK <= |(blocks + [b])[k]| < BLOCK_SIZE + MIN_BLOCK
    {
      if k < |blocks| {
        assert (blocks + [b])[k] == blocks[k];
      }
    }
  }

  /** `fbuf_maybe_flush(f, more)` as the source writes it: flush when the
      pending bytes and the `more` about to be written exceed the block
      size, otherwise change nothing. */
  function MaybeFlush(w: Writer, more: nat, c: Compressor): (r: Writer)
    requires more <= BLOCK_SIZE && |w.wbuf| <= BLOCK_SIZE
    ensures |w.wbuf| + more > BLOCK_SIZE ==> r == EmitBlock(w, c)
    ensures |w.wbuf| + more <= BLOCK_SIZE ==> r == w
  {
    if |w.wbuf| + more > BLOCK_SIZE then EmitBlock(w, c) else w
  }

  /** A write call as the source makes it: `fbuf_maybe_flush(f, n)`, then the
      `n` encoded bytes appended to the pending buffer. The pending buffer
      never exceeds the block size, so it stays inside its spill-size
      allocation. */
  function PutAsWritten(w: Writer, bytes: seq<byte>, c: Compressor): (r: Writer)
    requires |bytes| <= BLOCK_SIZE && |w.wbuf| <= BLOCK_SIZE
    ensures |r.wbuf| <= BLOCK_SIZE < SPILL_SIZE && w.sink <= r.sink
    ensures |w.wbuf| + |bytes| > BLOCK_SIZE ==>
      r.blocks == w.blocks + [Padded(w.wbuf)] && r.wbuf == bytes
    ensures |w.wbuf| + |bytes| <= BLOCK_SIZE ==>
      r.blocks == w.blocks && r.wbuf == w.wbuf + bytes && r.sink == w.sink
  {
    var f := MaybeFlush(w, |bytes|, c);
    f.(wbuf := f.wbuf + bytes)
  }

  /** The source's flush inserts zeros into the value stream: whenever
      fewer than 16 bytes are pending and the next write would pass the
      block size, the pending bytes are flushed padded to 16, so the stream
      holds `16 - |wbuf|` zeros between the pending bytes and the new ones,
      and a reader finds the new value where the zeros are. */
  lemma PaddingInStream(w: Writer, bytes: seq<byte>, c: Compressor)
    requires |bytes| <= BLOCK_SIZE && 0 < |w.wbuf| < MIN_BLOCK && |w.wbuf| + |bytes| > BLOCK_SIZE
    ensures Concat(PutAsWritten(w, bytes, c).blocks) + PutAsWritten(w, bytes, c).wbuf
            == Concat(w.blocks) + w.wbuf + Zeros(MIN_BLOCK - |w.wbuf|) + bytes
    ensures !Appends(w, PutAsWritten(w, bytes, c), bytes)
  {
    var r := PutAsWritten(w, bytes, c);
    ConcatSnoc(w.blocks, Padded(w.wbuf));
    assert Padded(w.wbuf) == w.wbuf + Zeros(MIN_BLOCK - |w.wbuf|);
    AppendAssoc(Concat(w.blocks), w.wbuf, Zeros(MIN_BLOCK - |w.wbuf|));
  }

  /** The corrected flush decision: flush only when the write would pass the
      block size AND at least 16 bytes are pending, so no padding is ever
      inserted between two written values. A write that meets fewer than 16
      pending bytes is appended instead; the buffer then holds at most
      `BLOCK_SIZE + 15` bytes, still below the spill size. */
  function MaybeFlushFixed(w: Writer, more: nat, c: Compressor): (r: Writer)
    requires more <= BLOCK_SIZE && |w.wbuf| < BLOCK_SIZE + MIN_BLOCK
    ensures |w.wbuf| + more > BLOCK_SIZE && |w.wbuf| >= MIN_BLOCK ==>
      r == EmitBlock(w, c) && Padded(w.wbuf) == w.wbuf
    ensures |w.wbuf| + more <= BLOCK_SIZE || |w.wbuf| < MIN_BLOCK ==> r == w
  {
    if |w.wbuf| + more > BLOCK_SIZE && |w.wbuf| >= MIN_BLOCK then EmitBlock(w, c) else w
  }

  /** A write call with the corrected flush. */
  function Put(w: Writer, bytes: seq<byte>, c: Compressor): (r: Writer)
    requires |bytes| <= BLOCK_SIZE && |w.wbuf| < BLOCK_SIZE + MIN_BLOCK
    ensures |r.wbuf| < BLOCK_SIZE + MIN_BLOCK && r.fifo == w.fifo
    ensures w.sink <= r.sink
  {
    var f := MaybeFlushFixed(w, |bytes|, c);
    f.(wbuf := f.wbuf + bytes)
  }

  /** The write call the source makes and the corrected one are the same
      call except in one case: some but fewer than 16 bytes are pending and
      the write would pass the block size, where the source flushes a padded
      block and the corrected call appends. */
  lemma AsWrittenAgrees(w: Writer, bytes: seq<byte>, c: Compressor)
    requires |bytes| <= BLOCK_SIZE && |w.wbuf| <= BLOCK_SIZE
    ensures PutAsWritten(w, bytes, c) == Put(w, bytes, c)
            <==> !(0 < |w.wbuf| < MIN_BLOCK && |w.wbuf| + |bytes| > BLOCK_SIZE)
  {
  }

  /** `r` holds what `w` held followed by `bytes`, counting both the
      flushed blocks and the pending buffer. */
  predicate Appends(w: Writer, r: Writer, bytes: seq<byte>) {
    Concat(r.blocks) + r.wbuf == Concat(w.blocks) + w.wbuf + bytes
  }

  /** Every byte written so far is either in a flushed block or pending, in
      order, with no padding in between. */
  lemma PutStream(w: Writer, bytes: seq<byte>, c: Compressor)
    requires |bytes| <= BLOCK_SIZE && |w.wbuf| < BLOCK_SIZE + MIN_BLOCK
    ensures Appends(w, Put(w, bytes, c), bytes)
  {
    var r := Put(w, bytes, c);
    if |w.wbuf| + |bytes| > BLOCK_SIZE && |w.wbuf| >= MIN_BLOCK {
      assert r.blocks == w.blocks + [w.wbuf] && r.wbuf == bytes;
      ConcatSnoc(w.blocks, w.wbuf);
    } else {
      assert r.blocks == w.blocks && r.wbuf == w.wbuf + bytes;
      AppendAssoc(Concat(w.blocks), w.wbuf, bytes);
    }
  }

  lemma PutConsistent(w: Writer, bytes: seq<byte>, c: Compressor, algo: Algo)
    requires |bytes| <= BLOCK_SIZE && |w.wbuf| < BLOCK_SIZE + MIN_BLOCK
    requires Consistent(w, c, algo)
    ensures Consistent(Put(w, bytes, c), c, algo)
  {
    var f := MaybeFlushFixed(w, |bytes|, c);
    if |w.wbuf| + |bytes| > BLOCK_SIZE && |w.wbuf| >= MIN_BLOCK {
      EmitBlockConsistent(w, c, algo);
    }
    PendingFree(f, f.wbuf + bytes, c, algo);
  }

  /** Consistency does not look at the pending buffer. */
  lemma PendingFree(w: Writer, wbuf: seq<byte>, c: Compressor, algo: Algo)
    requires Consistent(w, c, algo)
    ensures Consistent(w.(wbuf := wbuf), c, algo)
  {
  }

  /** `write_u8`, `write_u16`, `write_u32`, `write_u64`: the value's `n`
      bytes, least significant first. */
  function WriteFixed(w: Writer, u: nat, n: nat, c: Compressor): (r: Writer)
    requires n <= 8 && |w.wbuf| < BLOCK_SIZE + MIN_BLOCK
    ensures |r.wbuf| < BLOCK_SIZE + MIN_BLOCK && r.fifo == w.fifo
    ensures Appends(w, r, LE(u, n))
    ensures |w.wbuf| <= BLOCK_SIZE ==> r == PutAsWritten(w, LE(u, n), c)
  {
    PutStream(w, LE(u, n), c);
    Put(w, LE(u, n), c)
  }

  function WriteU8(w: Writer, u: byte, c: Compressor): (r: Writer)
    requires |w.wbuf| < BLOCK_SIZE + MIN_BLOCK
    ensures |r.wbuf| < BLOCK_SIZE + MIN_BLOCK && Appends(w, r, LE(u, 1))
    ensures |w.wbuf| <= BLOCK_SIZE ==> r == PutAsWritten(w, LE(u, 1), c)
  {
    WriteFixed(w, u, 1, c)
  }

  function WriteU16(w: Writer, u: u16, c: Compressor): (r: Writer)
    requires |w.wbuf| < BLOCK_SIZE + MIN_BLOCK
    ensures |r.wbuf| < BLOCK_SIZE + MIN_BLOCK && Appends(w, r, LE(u, 2))
    ensures |w.wbuf| <= BLOCK_SIZE ==> r == PutAsWritten(w, LE(u, 2), c)
  {
    WriteFixed(w, u, 2, c)
  }

  function WriteU32(w: Writer, u: u32, c: Compressor): (r: Writer)
    requires |w.wbuf| < BLOCK_SIZE + MIN_BLOCK
    ensures |r.wbuf| < BLOCK_SIZE + MIN_BLOCK && Appends(w, r, LE(u, 4))
    ensures |w.wbuf| <= BLOCK_SIZE ==> r == PutAsWritten(w, LE(u, 4), c)
  {
    WriteFixed(w, u, 4, c)
  }

  function WriteU64(w: Writer, u: u64, c: Compressor): (r: Writer)
    requires |w.wbuf| < BLOCK_SIZE + MIN_BLOCK
    ensures |r.wbuf| < BLOCK_SIZE + MIN_BLOCK && Appends(w, r, LE(u, 8))
    ensures |w.wbuf| <= BLOCK_SIZE ==> r == PutAsWritten(w, LE(u, 8), c)
  {
    WriteFixed(w, u, 8, c)
  }

  /** `write_raw`: the bytes verbatim. The source asserts that no more than
      one block is written at once. */
  function WriteRaw(w: Writer, buf: seq<byte>, c: Compressor): (r: Writer)
    requires |buf| <= BLOCK_SIZE && |w.wbuf| < BLOCK_SIZE + MIN_BLOCK
    ensures |r.wbuf| < BLOCK_SIZE + MIN_BLOCK && r.fifo == w.fifo
    ensures Appends(w, r, buf)
    ensures |w.wbuf| <= BLOCK_SIZE ==>
            (r == PutAsWritten(w, buf, c) <==> !(0 < |w.wbuf| < MIN_BLOCK && |w.wbuf| + |buf| > BLOCK_SIZE))
  {
    PutStream(w, buf, c);
    Put(w, buf, c)
  }

  /** `fbuf_put_uint`: the varint encoding, at most ten bytes. */
  function PutUint(w: Writer, v: u64, c: Compressor): (r: Writer)
    requires |w.wbuf| < BLOCK_SIZE + MIN_BLOCK
    ensures |r.wbuf| < BLOCK_SIZE + MIN_BLOCK && r.fifo == w.fifo
    ensures Appends(w, r, EncodeUint(v))
    ensures |EncodeUint(v)| <= 10
    ensures |w.wbuf| <= BLOCK_SIZE ==> r == PutAsWritten(w, EncodeUint(v), c)
  {
    EncodeUintAtMostTen(v);
    PutStream(w, EncodeUint(v), c);
    Put(w, EncodeUint(v), c)
  }

  /** `fbuf_put_int`: the varint encoding of the zig-zag code. */
  function PutInt(w: Writer, v: i64, c: Compressor): (r: Writer)
    requires |w.wbuf| < BLOCK_SIZE + MIN_BLOCK
    ensures |r.wbuf| < BLOCK_SIZE + MIN_BLOCK && r.fifo == w.fifo
    ensures Appends(w, r, EncodeUint(ZigZag(v)))
    ensures |EncodeUint(ZigZag(v))| <= 10
    ensures |w.wbuf| <= BLOCK_SIZE ==> r == PutAsWritten(w, EncodeUint(ZigZag(v)), c)
  {
    PutUint(w, ZigZag(v), c)
  }

  /** The flush `fbuf_close` makes, `fbuf_maybe_flush(f, BLOCK_SIZE)`: it
      writes a final block exactly when bytes are pending, so an empty
      session ends without an empty terminal block. The flushed payload is
      everything written, followed by fewer than 16 zero bytes. */
  function FinalFlush(w: Writer, c: Compressor): (r: Writer)
    requires |w.wbuf| < BLOCK_SIZE + MIN_BLOCK
    ensures r.wbuf == [] && r.fifo == w.fifo
    ensures |w.wbuf| == 0 ==> r == w
    ensures |w.wbuf| > 0 ==> r == EmitBlock(w, c)
    ensures exists pad: nat | pad < MIN_BLOCK ::
      Concat(r.blocks) == Concat(w.blocks) + w.wbuf + Zeros(pad)
  {
    if |w.wbuf| > 0 then
      var r := EmitBlock(w, c);
      ConcatSnoc(w.blocks, Padded(w.wbuf));
      assert Padded(w.wbuf) == w.wbuf + Zeros(|Padded(w.wbuf)| - |w.wbuf|);
      r
    else
      assert w.wbuf + Zeros(0) == w.wbuf;
      w
  }
}
