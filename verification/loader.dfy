/** The read side of `fbuf_decompress`: the header gates, the FIFO trailer
    substitution, and the loop that inflates the blocks into the
    decompressed buffer while folding them into the checksum. The whole
    compressed input is given as one sequence: the mapped file, or
    everything read from the FIFO. */
module Loader {
  import opened Arith
  import opened Bytes
  import opened Checksum
  import opened Faults
  import opened Format

  /** `fastlz_decompress(src, blksz, dst, maxout)`: the bytes `d`
      reconstructs, or none (a return of 0) when they would not fit in
      `maxout`. */
  function Inflate(d: Decompressor, src: seq<byte>, maxout: nat): (out: seq<byte>)
    ensures |out| <= maxout
    ensures |out| > 0 ==> out == d(src)
  {
    var out := d(src);
    if |out| > maxout then [] else out
  }

  /** The decompressor undoes the compressor on every block the writer can
      produce. */
  ghost predicate Inverts(c: Compressor, d: Decompressor) {
    forall b: seq<byte> | |b| < BLOCK_SIZE + MIN_BLOCK :: d(c(b)) == b
  }

  /** What a successful load leaves in the session: the decompressed
      contents (`rbuf`, `origsz` bytes), the checksum state after folding
      them, and the checksum the header promises (`checksum.expect`). */
  datatype Loaded = Loaded(rbuf: seq<byte>, cs: State, expected: u32)

  /** The smaller of the room left and the spill size. */
  function MaxOut(room: nat): nat {
    if room < SPILL_SIZE then room else SPILL_SIZE
  }

  /** What one turn of the block loop does: stop because the buffer is
      full, stop with a fault, or take a decompressed block after consuming
      `used` bytes of the input (the prefix and the compressed block). */
  datatype Turn = Full | Stop(fault: Fault) | Take(block: seq<byte>, used: nat)

  /** One turn of the block loop of `fbuf_decompress` over the compressed
      bytes `input` that follow the read position `src`, while `room` bytes
      of the `origsz`-byte buffer remain to be filled, written as the
      evidently intended code: the 4-byte length prefix must lie inside the
      input, and the decompressor may produce no more than the room left
      (nor, as in the source, more than the spill size). A block is
      rejected when its compressed length exceeds the spill size, when it
      runs past the end of the input, or when it does not decompress. */
  function NextBlock(input: seq<byte>, room: nat, d: Decompressor): (t: Turn)
    ensures t.Full? <==> room == 0
    ensures room > 0 && |input| < 4 ==> t == Stop(ReadPastCompressed)
    ensures room > 0 && |input| >= 4 && UnpackBE32(input[..4]) > SPILL_SIZE ==>
            t == Stop(InvalidCompression)
    ensures (room > 0 && |input| >= 4 && UnpackBE32(input[..4]) <= SPILL_SIZE
             && 4 + UnpackBE32(input[..4]) > |input|) ==> t == Stop(ReadPastCompressed)
    ensures (room > 0 && |input| >= 4 && UnpackBE32(input[..4]) <= SPILL_SIZE
             && 4 + UnpackBE32(input[..4]) <= |input|) ==>
            var used := 4 + UnpackBE32(input[..4]);
            var out := d(input[4..used]);
            t == if 0 < |out| <= MaxOut(room) then Take(out, used) else Stop(InvalidCompression)
    ensures t.Stop? ==> t.fault in {ReadPastCompressed, InvalidCompression}
    ensures t.Take? ==> 4 <= t.used <= |input| && t.used == 4 + UnpackBE32(input[..4])
                        && t.block == d(input[4..t.used])
                        && 0 < |t.block| <= room && |t.block| <= SPILL_SIZE
  {
    if room == 0 then Full
    else if |input| < 4 then Stop(ReadPastCompressed)
    else
      var blksz := UnpackBE32(input[..4]);
      if blksz > SPILL_SIZE then Stop(InvalidCompression)
      else if 4 + blksz > |input| then Stop(ReadPastCompressed)
      else
        var block := Inflate(d, input[4..4 + blksz], MaxOut(room));
        if |block| == 0 then Stop(InvalidCompression)
        else Take(block, 4 + blksz)
  }

  /** One turn of the block loop as the source writes it. Two accesses are
      unchecked: the 4-byte length prefix is read even when fewer than four
      input bytes remain, and FastLZ is allowed `SPILL_SIZE` output bytes
      wherever the destination is, so a block that decompresses to more
      than the room left runs past the end of `rbuf`. Both are
      `OutOfBounds`; every other turn is the intended one. */
  function NextBlockAsWritten(input: seq<byte>, room: nat, d: Decompressor): (t: Turn)
    ensures t == Stop(OutOfBounds) || t == NextBlock(input, room, d)
    ensures t == Stop(OutOfBounds) <==> room > 0 && (|input| < 4 || Overruns(input, room, d))
    ensures NextBlock(input, room, d).Take? ==> t == NextBlock(input, room, d)
  {
    if room == 0 then Full
    else if |input| < 4 then Stop(OutOfBounds)
    else
      var blksz := UnpackBE32(input[..4]);
      if blksz > SPILL_SIZE then Stop(InvalidCompression)
      else if 4 + blksz > |input| then Stop(ReadPastCompressed)
      else
        var block := Inflate(d, input[4..4 + blksz], SPILL_SIZE);
        if |block| == 0 then Stop(InvalidCompression)
        else if |block| > room then Stop(OutOfBounds)
        else Take(block, 4 + blksz)
  }

  /** A block whose prefix and compressed bytes lie inside the input and
      which FastLZ can decompress into a spill buffer, but which is longer
      than the room left. */
  predicate Overruns(input: seq<byte>, room: nat, d: Decompressor)
    requires |input| >= 4
  {
    var blksz := UnpackBE32(input[..4]);
    blksz <= SPILL_SIZE && 4 + blksz <= |input|
    && 0 < |d(input[4..4 + blksz])| <= SPILL_SIZE && |d(input[4..4 + blksz])| > room
  }

  /** The block loop of `fbuf_decompress`: turns until the buffer is full.
      The result is the bytes produced, exactly `room` of them, and the
      checksum folded over them. */
  function DecodeBlocks(input: seq<byte>, room: nat, cs: State, d: Decompressor)
    : (r: Result<(seq<byte>, State)>)
    ensures r.Ok? ==> |r.value.0| == room && r.value.1 == Update(cs, r.value.0)
    ensures r.Err? ==> r.fault in {ReadPastCompressed, InvalidCompression}
    decreases room
  {
    match NextBlock(input, room, d)
    case Full => Ok(([], cs))
    case Stop(f) => Err(f)
    case Take(block, used) =>
      var rest := DecodeBlocks(input[used..], room - |block|, Update(cs, block), d);
      if rest.Ok? then UpdateConcat(cs, block, rest.value.0); Prepend(block, rest)
      else rest
  }

  /** The block loop over the turns as the source writes them. */
  function DecodeBlocksAsWritten(input: seq<byte>, room: nat, cs: State, d: Decompressor)
    : (r: Result<(seq<byte>, State)>)
    decreases room
  {
    var t := NextBlockAsWritten(input, room, d);
    match t
    case Full => Ok(([], cs))
    case Stop(f) => Err(f)
    case Take(block, used) =>
      assert t == NextBlock(input, room, d);
      Prepend(block, DecodeBlocksAsWritten(input[used..], room - |block|, Update(cs, block), d))
  }

  /** The bytes of one block in front of what the rest of the loop produces. */
  function Prepend(block: seq<byte>, rest: Result<(seq<byte>, State)>): Result<(seq<byte>, State)> {
    if rest.Err? then rest else Ok((block + rest.value.0, rest.value.1))
  }

  /** The two loops agree wherever the source stays inside its buffers, and
      the source's loop decodes every input the intended one decodes. */
  lemma {:induction false} DecodeBlocksAgree(input: seq<byte>, room: nat, cs: State, d: Decompressor)
    ensures DecodeBlocksAsWritten(input, room, cs, d) == Err(OutOfBounds) ||
            DecodeBlocksAsWritten(input, room, cs, d) == DecodeBlocks(input, room, cs, d)
    ensures DecodeBlocks(input, room, cs, d).Ok? ==>
            DecodeBlocksAsWritten(input, room, cs, d) == DecodeBlocks(input, room, cs, d)
    decreases room
  {
    var t := NextBlock(input, room, d);
    if NextBlockAsWritten(input, room, d) == t && t.Take? {
      DecodeBlocksAgree(input[t.used..], room - |t.block|, Update(cs, t.block), d);
    }
  }

  /** One turn of the block loop that takes a block. */
  lemma DecodeStep(input: seq<byte>, room: nat, cs: State, d: Decompressor, block: seq<byte>, used: nat)
    requires NextBlock(input, room, d) == Take(block, used)
    ensures DecodeBlocks(input, room, cs, d)
            == Prepend(block, DecodeBlocks(input[used..], room - |block|, Update(cs, block), d))
  {
    var rest := DecodeBlocks(input[used..], room - |block|, Update(cs, block), d);
    if rest.Ok? {
      assert DecodeBlocks(input, room, cs, d) == Prepend(block, rest);
    } else {
      assert DecodeBlocks(input, room, cs, d) == rest;
    }
  }

  /** A block the decoder gets back from its frame. */
  ghost predicate RoundTrips(c: seq<byte> -> seq<byte>, d: Decompressor, b: seq<byte>) {
    0 < |b| < BLOCK_SIZE + MIN_BLOCK && |c(b)| < SPILL_SIZE && d(c(b)) == b
  }

  /** One pass of the block loop over the frame of a block the writer can
      produce: the block comes first, then whatever the rest decodes to. */
  lemma DecodeOneFrame(c: seq<byte> -> seq<byte>, d: Decompressor, b: seq<byte>, rest: seq<byte>,
                       room: nat, cs: State)
    requires RoundTrips(c, d, b) && |b| <= room
    ensures DecodeBlocks(Frame(c, b) + rest, room, cs, d)
            == Prepend(b, DecodeBlocks(rest, room - |b|, Update(cs, b), d))
  {
    var f := Frame(c, b);
    var input := f + rest;
    FrameLength(c, b);
    assert input[..4] == f[..4];
    var blksz := UnpackBE32(input[..4]);
    assert blksz == |c(b)|;
    assert input[4..4 + blksz] == c(b);
    SliceAppend(f, rest, |f|);
    assert f[|f|..] == [];
    assert input[4 + blksz..] == rest;
    assert NextBlock(input, room, d) == Take(b, 4 + blksz);
    DecodeStep(input, room, cs, d, b, 4 + blksz);
  }

  /** The blocks of a well-formed input decode to their contents: frames of
      blocks that the decompressor gets back, and a room that matches their
      total, whatever follows them in the input. */
  lemma {:induction false} DecodeFrames(c: seq<byte> -> seq<byte>, d: Decompressor, blocks: seq<seq<byte>>,
                                        tail: seq<byte>, cs: State)
    requires forall k | 0 <= k < |blocks| :: RoundTrips(c, d, blocks[k])
    ensures DecodeBlocks(Frames(c, blocks) + tail, |Concat(blocks)|, cs, d)
            == Ok((Concat(blocks), Update(cs, Concat(blocks))))
    decreases |blocks|
  {
    if |blocks| > 0 {
      var b, more := blocks[0], blocks[1..];
      assert RoundTrips(c, d, b);
      assert forall k | 0 <= k < |more| :: RoundTrips(c, d, more[k]) by {
        forall k | 0 <= k < |more|
          ensures RoundTrips(c, d, more[k])
        {
          assert more[k] == blocks[k + 1];
        }
      }
      DecodeFrames(c, d, more, tail, Update(cs, b));
      FramesCons(c, blocks);
      DecodeFrameThen(c, d, b, Frames(c, more), tail, Concat(more), cs);
      AppendAssoc(Frame(c, b), Frames(c, more), tail);
    }
  }

  /** One frame in front of frames that decode to `after`. */
  lemma DecodeFrameThen(c: seq<byte> -> seq<byte>, d: Decompressor, b: seq<byte>, frames: seq<byte>,
                        tail: seq<byte>, after: seq<byte>, cs: State)
    requires RoundTrips(c, d, b)
    requires DecodeBlocks(frames + tail, |after|, Update(cs, b), d) == Ok((after, Update(Update(cs, b), after)))
    ensures DecodeBlocks(Frame(c, b) + (frames + tail), |b + after|, cs, d) == Ok((b + after, Update(cs, b + after)))
  {
    DecodeOneFrame(c, d, b, frames + tail, |b + after|, cs);
    assert |b + after| - |b| == |after|;
    UpdateConcat(cs, b, after);
  }

  /** The 16 header bytes in effect: for a FIFO, bytes 8..16 (the length and
      the checksum) come from the last eight bytes of the input, where the
      writer appended them because it could not seek back. */
  function EffectiveHeader(data: seq<byte>, fifo: bool): (h: seq<byte>)
    requires |data| >= 16
    ensures |h| == 16 && h[..8] == data[..8]
    ensures h[8..] == if fifo then data[|data| - 8..] else data[8..16]
  {
    if fifo then data[..8] + data[|data| - 8..] else data[..16]
  }

  /** The last step of `fbuf_decompress`: the session's buffer, checksum
      state and expected checksum, or the fault of the block loop. */
  function Load(decoded: Result<(seq<byte>, State)>, expected: u32): (r: Result<Loaded>)
    ensures r.Ok? <==> decoded.Ok?
  {
    match decoded
    case Err(f) => Err(f)
    case Ok((rbuf, cs)) => Ok(Loaded(rbuf, cs, expected))
  }

  /** The header checks of `fbuf_decompress`, in the source's order. */
  predicate GatesPass(data: seq<byte>, algo: Algo) {
    |data| >= 16 && data[..4] == MAGIC && data[4] == ZIP_FASTLZ && data[5] == Tag(algo)
  }

  /** `fbuf_decompress`: read the 16-byte header; check in order the magic
      number, the compression tag and the checksum tag against the
      algorithm the reader asked for; take the length and the expected
      checksum from the header (from the trailer on a FIFO); then decode
      the blocks from offset 16 into a buffer of that length. */
  function Decompress(data: seq<byte>, fifo: bool, algo: Algo, d: Decompressor): (r: Result<Loaded>)
    ensures |data| < 16 ==> r == Err(ShortRead)
    ensures |data| >= 16 && data[..4] != MAGIC ==> r == Err(OlderVersion)
    ensures |data| >= 16 && data[..4] == MAGIC && data[4] != ZIP_FASTLZ ==>
            r == Err(UnexpectedCompression(data[4]))
    ensures |data| >= 16 && data[..4] == MAGIC && data[4] == ZIP_FASTLZ && data[5] != Tag(algo) ==>
            r == Err(UnexpectedChecksum(data[5]))
    ensures r.Ok? ==> GatesPass(data, algo)
    ensures r.Ok? ==> |r.value.rbuf| == UnpackBE32(EffectiveHeader(data, fifo)[8..])
                      && r.value.expected == UnpackBE32(EffectiveHeader(data, fifo)[12..])
                      && r.value.cs == Update(Init(algo), r.value.rbuf)
    ensures GatesPass(data, algo) ==>
            var decoded := DecodeBlocks(data[16..], UnpackBE32(EffectiveHeader(data, fifo)[8..]), Init(algo), d);
            (r.Ok? <==> decoded.Ok?) && (r.Ok? ==> r.value.rbuf == decoded.value.0)
            && (r.Err? ==> r.fault == decoded.fault)
    ensures GatesPass(data, algo) && r.Err? ==> r.fault in {ReadPastCompressed, InvalidCompression}
  {
    if |data| < 16 then Err(ShortRead)
    else if data[..4] != MAGIC then Err(OlderVersion)
    else if data[4] != ZIP_FASTLZ then Err(UnexpectedCompression(data[4]))
    else if data[5] != Tag(algo) then Err(UnexpectedChecksum(data[5]))
    else
      var header := EffectiveHeader(data, fifo);
      Load(DecodeBlocks(data[16..], UnpackBE32(header[8..]), Init(algo), d), UnpackBE32(header[12..]))
  }

  /** `fbuf_decompress` with the block loop as the source writes it. */
  function DecompressAsWritten(data: seq<byte>, fifo: bool, algo: Algo, d: Decompressor): (r: Result<Loaded>)
    ensures r != Err(OutOfBounds) ==> r == Decompress(data, fifo, algo, d)
    ensures Decompress(data, fifo, algo, d).Ok? ==> r == Decompress(data, fifo, algo, d)
  {
    if |data| < 16 then Err(ShortRead)
    else if data[..4] != MAGIC then Err(OlderVersion)
    else if data[4] != ZIP_FASTLZ then Err(UnexpectedCompression(data[4]))
    else if data[5] != Tag(algo) then Err(UnexpectedChecksum(data[5]))
    else
      var header := EffectiveHeader(data, fifo);
      DecodeBlocksAgree(data[16..], UnpackBE32(header[8..]), Init(algo), d);
      Load(DecodeBlocksAsWritten(data[16..], UnpackBE32(header[8..]), Init(algo), d), UnpackBE32(header[12..]))
  }

  /** The first eight header bytes as the writer leaves them pass every gate. */
  lemma WrittenHeaderPasses(data: seq<byte>, algo: Algo)
    requires |data| >= 16 && data[..8] == Header(ZIP_FASTLZ, algo)[..8]
    ensures GatesPass(data, algo)
  {
    assert data[..4] == data[..8][..4];
    assert data[4] == data[..8][4] && data[5] == data[..8][5];
  }

  /** The length and checksum fields in effect, when they are the trailer
      the writer produced. */
  lemma TrailerFields(data: seq<byte>, fifo: bool, total: nat, checksum: u32)
    requires |data| >= 16 && total < TWO_32
    requires EffectiveHeader(data, fifo)[8..] == Trailer(total, checksum)
    ensures UnpackBE32(EffectiveHeader(data, fifo)[8..]) == total
    ensures UnpackBE32(EffectiveHeader(data, fifo)[12..]) == checksum
  {
    var h := EffectiveHeader(data, fifo);
    DivModUnique(total, TWO_32, 0, total);
    assert h[12..] == Trailer(total, checksum)[4..];
  }

  /** Every block the writer can produce comes back from its frame. */
  lemma InvertsBlocks(c: Compressor, d: Decompressor, blocks: seq<seq<byte>>)
    requires Inverts(c, d)
    requires forall k | 0 <= k < |blocks| :: 0 < |blocks[k]| < BLOCK_SIZE + MIN_BLOCK
    ensures forall k | 0 <= k < |blocks| :: RoundTrips(c, d, blocks[k])
  {
  }

  /** A file laid out as the writer leaves it -- the first eight header
      bytes, the length and checksum in effect, then the frames of blocks
      the writer can produce -- loads back to the blocks' contents, with the
      checksum folded over them and the checksum the file promises; the
      source's loop loads it to the same result. */
  lemma LoadFrames(data: seq<byte>, fifo: bool, algo: Algo, c: Compressor, d: Decompressor,
                   blocks: seq<seq<byte>>, tail: seq<byte>, checksum: u32)
    requires Inverts(c, d)
    requires forall k | 0 <= k < |blocks| :: 0 < |blocks[k]| < BLOCK_SIZE + MIN_BLOCK
    requires |Concat(blocks)| < TWO_32
    requires |data| >= 16 && data[..8] == Header(ZIP_FASTLZ, algo)[..8]
    requires EffectiveHeader(data, fifo)[8..] == Trailer(|Concat(blocks)|, checksum)
    requires data[16..] == Frames(c, blocks) + tail
    ensures Decompress(data, fifo, algo, d)
            == Ok(Loaded(Concat(blocks), Update(Init(algo), Concat(blocks)), checksum))
    ensures DecompressAsWritten(data, fifo, algo, d) == Decompress(data, fifo, algo, d)
  {
    WrittenHeaderPasses(data, algo);
    TrailerFields(data, fifo, |Concat(blocks)|, checksum);
    InvertsBlocks(c, d, blocks);
    DecodeFrames(c, d, blocks, tail, Init(algo));
  }

  /** A header promising one byte and no block after it: the source reads
      the length prefix from beyond the end of the input. */
  lemma TruncatedPrefix(d: Decompressor)
    ensures DecompressAsWritten(MAGIC + [ZIP_FASTLZ, Tag(NoSum), 0, 0, 0, 0, 0, 1, 0, 0, 0, 0], false, NoSum, d)
            == Err(OutOfBounds)
    ensures Decompress(MAGIC + [ZIP_FASTLZ, Tag(NoSum), 0, 0, 0, 0, 0, 1, 0, 0, 0, 0], false, NoSum, d)
            == Err(ReadPastCompressed)
  {
    var data := MAGIC + [ZIP_FASTLZ, Tag(NoSum), 0, 0, 0, 0, 0, 1, 0, 0, 0, 0];
    assert data[..4] == MAGIC;
    assert UnpackBE32(EffectiveHeader(data, false)[8..]) == 1;
  }

  /** A header promising 16 bytes and one block whose single compressed
      byte inflates to 32: the source lets FastLZ write all 32 into the
      16-byte buffer. */
  lemma OversizedBlock()
    ensures var data := MAGIC + [ZIP_FASTLZ, Tag(NoSum), 0, 0, 0, 0, 0, 16, 0, 0, 0, 0] + [0, 0, 0, 1, 0];
            var d: Decompressor := _ => Zeros(32);
            DecompressAsWritten(data, false, NoSum, d) == Err(OutOfBounds)
            && Decompress(data, false, NoSum, d) == Err(InvalidCompression)
  {
    var data := MAGIC + [ZIP_FASTLZ, Tag(NoSum), 0, 0, 0, 0, 0, 16, 0, 0, 0, 0] + [0, 0, 0, 1, 0];
    var d: Decompressor := _ => Zeros(32);
    assert data[..4] == MAGIC;
    assert UnpackBE32(EffectiveHeader(data, false)[8..]) == 16;
    assert UnpackBE32(data[16..20]) == 1;
    assert |Inflate(d, data[20..21], SPILL_SIZE)| == 32;
  }
}
