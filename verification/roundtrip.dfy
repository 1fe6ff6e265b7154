/** The whole life of an `fbuf` file: values written through a writer
    session, the session closed, the file loaded by a reader session, the
    values read back, and the reader closed. Readers in the source know the
    sequence of value kinds they expect; here that is the list of items
    itself, whose values the reader ignores (except the length of a raw
    item). */
module RoundTrip {
  import opened Arith
  import opened Bytes
  import opened Checksum
  import opened Faults
  import opened Format
  import opened Varint
  import opened Framer
  import opened Reader
  import opened Loader
  import opened Session

  /** One value written by one call of the public write interface. */
  datatype Item =
    | U8(b: byte)          // write_u8 / read_u8
    | U16(h: u16)          // write_u16 / read_u16
    | U32(u: u32)          // write_u32 / read_u32
    | U64(q: u64)          // write_u64 / read_u64
    | Uint(v: u64)         // fbuf_put_uint / fbuf_get_uint
    | Int(i: i64)          // fbuf_put_int / fbuf_get_int
    | Raw(bytes: seq<byte>) // write_raw / read_raw

  /** A raw write may not exceed one block. */
  predicate Writable(items: seq<Item>) {
    forall k | 0 <= k < |items| :: items[k].Raw? ==> |items[k].bytes| <= BLOCK_SIZE
  }

  /** The bytes one write call appends to the stream. */
  function Encoding(item: Item): seq<byte> {
    match item
    case U8(b) => LE(b, 1)
    case U16(h) => LE(h, 2)
    case U32(u) => LE(u, 4)
    case U64(q) => LE(q, 8)
    case Uint(v) => EncodeUint(v)
    case Int(i) => EncodeUint(ZigZag(i))
    case Raw(bytes) => bytes
  }

  /** The bytes a sequence of write calls appends, in order. */
  function Encodings(items: seq<Item>): seq<byte> {
    if |items| == 0 then [] else Encoding(items[0]) + Encodings(items[1..])
  }

  /** No write call appends more than a block. */
  lemma EncodingFits(item: Item)
    requires item.Raw? ==> |item.bytes| <= BLOCK_SIZE
    ensures |Encoding(item)| <= BLOCK_SIZE
  {
    match item
    case Uint(v) => EncodeUintAtMostTen(v);
    case Int(i) => EncodeUintAtMostTen(ZigZag(i));
    case _ =>
  }

  /** One write call: the corrected put of its encoding. */
  function WriteItem(w: Writer, item: Item, c: Compressor): (r: Writer)
    requires |w.wbuf| < BLOCK_SIZE + MIN_BLOCK
    requires item.Raw? ==> |item.bytes| <= BLOCK_SIZE
    ensures |r.wbuf| < BLOCK_SIZE + MIN_BLOCK && r.fifo == w.fifo && w.sink <= r.sink
    ensures Appends(w, r, Encoding(item))
  {
    EncodingFits(item);
    PutStream(w, Encoding(item), c);
    Put(w, Encoding(item), c)
  }

  /** Each kind of item is written by its own call of the write interface. */
  lemma WriteItemCalls(w: Writer, item: Item, c: Compressor)
    requires |w.wbuf| < BLOCK_SIZE + MIN_BLOCK
    requires item.Raw? ==> |item.bytes| <= BLOCK_SIZE
    ensures item.U8? ==> WriteItem(w, item, c) == WriteU8(w, item.b, c)
    ensures item.U16? ==> WriteItem(w, item, c) == WriteU16(w, item.h, c)
    ensures item.U32? ==> WriteItem(w, item, c) == WriteU32(w, item.u, c)
    ensures item.U64? ==> WriteItem(w, item, c) == WriteU64(w, item.q, c)
    ensures item.Uint? ==> WriteItem(w, item, c) == PutUint(w, item.v, c)
    ensures item.Int? ==> WriteItem(w, item, c) == PutInt(w, item.i, c)
    ensures item.Raw? ==> WriteItem(w, item, c) == WriteRaw(w, item.bytes, c)
  {
  }

  /** Every write call keeps the writer consistent. */
  lemma WriteItemConsistent(w: Writer, item: Item, c: Compressor, algo: Algo)
    requires |w.wbuf| < BLOCK_SIZE + MIN_BLOCK && Consistent(w, c, algo)
    requires item.Raw? ==> |item.bytes| <= BLOCK_SIZE
    ensures Consistent(WriteItem(w, item, c), c, algo)
  {
    EncodingFits(item);
    PutConsistent(w, Encoding(item), c, algo);
  }

  /** A sequence of write calls, in order. */
  function WriteAll(w: Writer, items: seq<Item>, c: Compressor): (r: Writer)
    requires |w.wbuf| < BLOCK_SIZE + MIN_BLOCK && Writable(items)
    ensures |r.wbuf| < BLOCK_SIZE + MIN_BLOCK && r.fifo == w.fifo && w.sink <= r.sink
    ensures Appends(w, r, Encodings(items))
    decreases |items|
  {
    if |items| == 0 then
      assert Concat(w.blocks) + w.wbuf + [] == Concat(w.blocks) + w.wbuf;
      w
    else
      var next := WriteItem(w, items[0], c);
      var r := WriteAll(next, items[1..], c);
      AppendAssoc(Concat(w.blocks) + w.wbuf, Encoding(items[0]), Encodings(items[1..]));
      r
  }

  lemma {:induction false} WriteAllConsistent(w: Writer, items: seq<Item>, c: Compressor, algo: Algo)
    requires |w.wbuf| < BLOCK_SIZE + MIN_BLOCK && Writable(items) && Consistent(w, c, algo)
    ensures Consistent(WriteAll(w, items, c), c, algo)
    decreases |items|
  {
    if |items| > 0 {
      WriteItemConsistent(w, items[0], c, algo);
      WriteAllConsistent(WriteItem(w, items[0], c), items[1..], c, algo);
    }
  }

  /** One read call of the kind `shape` names. */
  function ReadItem(cur: Cursor, shape: Item): (r: Result<(Item, Cursor)>)
    ensures r.Ok? ==> r.value.1.rbuf == cur.rbuf && cur.rptr <= r.value.1.rptr <= cur.Size()
  {
    match shape
    case U8(_) => (match ReadU8(cur) case Err(f) => Err(f) case Ok((b, next)) => Ok((U8(b), next)))
    case U16(_) => (match ReadU16(cur) case Err(f) => Err(f) case Ok((h, next)) => Ok((U16(h), next)))
    case U32(_) => (match ReadU32(cur) case Err(f) => Err(f) case Ok((u, next)) => Ok((U32(u), next)))
    case U64(_) => (match ReadU64(cur) case Err(f) => Err(f) case Ok((q, next)) => Ok((U64(q), next)))
    case Uint(_) => (match GetUint(cur) case Err(f) => Err(f) case Ok((v, next)) => Ok((Uint(v), next)))
    case Int(_) =>
      (match GetInt(cur)
       case Err(f) => Err(f)
       case Ok((i, next)) => assert next == GetUint(cur).value.1; Ok((Int(i), next)))
    case Raw(bytes) =>
      (match ReadRaw(cur, |bytes|) case Err(f) => Err(f) case Ok((bs, next)) => Ok((Raw(bs), next)))
  }

  /** A sequence of read calls, in order, stopping at the first fault. */
  function ReadAll(cur: Cursor, shapes: seq<Item>): (r: Result<(seq<Item>, Cursor)>)
    ensures r.Ok? ==> |r.value.0| == |shapes| && r.value.1.rbuf == cur.rbuf
    decreases |shapes|
  {
    if |shapes| == 0 then Ok(([], cur))
    else
      match ReadItem(cur, shapes[0])
      case Err(f) => Err(f)
      case Ok((item, next)) =>
        match ReadAll(next, shapes[1..])
        case Err(f) => Err(f)
        case Ok((rest, last)) => Ok(([item] + rest, last))
  }

  /** Fixed-width values below `256^n` read back from their `n` bytes. */
  lemma FixedBack(buf: seq<byte>, at: nat, u: nat, v: nat, n: nat)
    requires u < Pow(256, n) && v < Pow(256, n)
    requires at + n <= |buf| && buf[at..at + n] == LE(u, n) && LE(v, n) == buf[at..at + n]
    ensures v == u
  {
    LERoundTrip(u, n);
    LERoundTrip(v, n);
  }

  /** The bytes of an item where the read of it starts. */
  predicate LaidAt(buf: seq<byte>, pos: nat, item: Item, end: nat) {
    end == pos + |Encoding(item)| <= |buf| && buf[pos..end] == Encoding(item)
  }

  lemma ReadU8At(buf: seq<byte>, pos: nat, item: Item, end: nat)
    requires item.U8? && LaidAt(buf, pos, item, end)
    ensures ReadItem(Cursor(buf, pos), item) == Ok((item, Cursor(buf, end)))
  {
    Widths();
    FixedBack(buf, pos, item.b, buf[pos], 1);
  }

  lemma ReadU16At(buf: seq<byte>, pos: nat, item: Item, end: nat)
    requires item.U16? && LaidAt(buf, pos, item, end)
    ensures ReadItem(Cursor(buf, pos), item) == Ok((item, Cursor(buf, end)))
  {
    Widths();
    FixedBack(buf, pos, item.h, ReadU16(Cursor(buf, pos)).value.0, 2);
  }

  lemma ReadU32At(buf: seq<byte>, pos: nat, item: Item, end: nat)
    requires item.U32? && LaidAt(buf, pos, item, end)
    ensures ReadItem(Cursor(buf, pos), item) == Ok((item, Cursor(buf, end)))
  {
    Widths();
    FixedBack(buf, pos, item.u, ReadU32(Cursor(buf, pos)).value.0, 4);
  }

  lemma ReadU64At(buf: seq<byte>, pos: nat, item: Item, end: nat)
    requires item.U64? && LaidAt(buf, pos, item, end)
    ensures ReadItem(Cursor(buf, pos), item) == Ok((item, Cursor(buf, end)))
  {
    Widths();
    FixedBack(buf, pos, item.q, ReadU64(Cursor(buf, pos)).value.0, 8);
  }

  lemma ReadUintAt(buf: seq<byte>, pos: nat, item: Item, end: nat)
    requires item.Uint? && LaidAt(buf, pos, item, end)
    ensures ReadItem(Cursor(buf, pos), item) == Ok((item, Cursor(buf, end)))
  {
    GetUintAt(buf, pos, item.v, end);
  }

  lemma ReadIntAt(buf: seq<byte>, pos: nat, item: Item, end: nat)
    requires item.Int? && LaidAt(buf, pos, item, end)
    ensures ReadItem(Cursor(buf, pos), item) == Ok((item, Cursor(buf, end)))
  {
    GetIntAt(buf, pos, item.i, end);
  }

  lemma ReadRawAt(buf: seq<byte>, pos: nat, item: Item, end: nat)
    requires item.Raw? && LaidAt(buf, pos, item, end)
    ensures ReadItem(Cursor(buf, pos), item) == Ok((item, Cursor(buf, end)))
  {
  }

  /** One write call's bytes, wherever they sit in a buffer and whatever
      precedes or follows them, read back by the matching read call as the
      value written, leaving the cursor just past them. */
  lemma ReadItemAt(buf: seq<byte>, pos: nat, item: Item, end: nat)
    requires end == pos + |Encoding(item)| <= |buf| && buf[pos..end] == Encoding(item)
    ensures ReadItem(Cursor(buf, pos), item) == Ok((item, Cursor(buf, end)))
  {
    assert LaidAt(buf, pos, item, end);
    if item.U8? { ReadU8At(buf, pos, item, end); }
    else if item.U16? { ReadU16At(buf, pos, item, end); }
    else if item.U32? { ReadU32At(buf, pos, item, end); }
    else if item.U64? { ReadU64At(buf, pos, item, end); }
    else if item.Uint? { ReadUintAt(buf, pos, item, end); }
    else if item.Int? { ReadIntAt(buf, pos, item, end); }
    else { ReadRawAt(buf, pos, item, end); }
  }

  /** Where each of `items` starts when their encodings are laid out from
      `pos` on, followed by where the last one ends. */
  function Ends(pos: nat, items: seq<Item>): (e: seq<nat>)
    ensures |e| == |items| + 1 && e[0] == pos && e[|items|] == pos + |Encodings(items)|
    decreases |items|
  {
    if |items| == 0 then [pos] else [pos] + Ends(pos + |Encoding(items[0])|, items[1..])
  }

  /** Every item of `items` reads back from its place in `buf`. */
  predicate Chained(buf: seq<byte>, items: seq<Item>, ends: seq<nat>)
    requires |ends| == |items| + 1
  {
    forall k {:trigger ReadItem(Cursor(buf, ends[k]), items[k])} | 0 <= k < |items| ::
      ReadItem(Cursor(buf, ends[k]), items[k]) == Ok((items[k], Cursor(buf, ends[k + 1])))
  }

  /** A read in front of a chain of reads is a longer chain. */
  lemma ChainedCons(buf: seq<byte>, items: seq<Item>, pos: nat, ends: seq<nat>)
    requires |items| > 0 && |ends| == |items|
    requires ReadItem(Cursor(buf, pos), items[0]) == Ok((items[0], Cursor(buf, ends[0])))
    requires Chained(buf, items[1..], ends)
    ensures Chained(buf, items, [pos] + ends)
  {
    var e := [pos] + ends;
    forall k | 0 <= k < |items|
      ensures ReadItem(Cursor(buf, e[k]), items[k]) == Ok((items[k], Cursor(buf, e[k + 1])))
    {
      if k > 0 {
        assert e[k] == ends[k - 1] && e[k + 1] == ends[k] && items[k] == items[1..][k - 1];
        assert ReadItem(Cursor(buf, ends[k - 1]), items[1..][k - 1])
               == Ok((items[1..][k - 1], Cursor(buf, ends[k])));
      }
    }
  }

  /** Items laid out in a buffer each read back from their place. */
  lemma {:induction false} ItemsAt(buf: seq<byte>, pos: nat, items: seq<Item>)
    requires pos + |Encodings(items)| <= |buf| && buf[pos..pos + |Encodings(items)|] == Encodings(items)
    ensures Chained(buf, items, Ends(pos, items))
    decreases |items|
  {
    if |items| > 0 {
      var enc, more := Encoding(items[0]), Encodings(items[1..]);
      var mid := pos + |enc|;
      assert Encodings(items) == enc + more;
      SplitWindow(buf, pos, enc, more);
      ItemsAt(buf, mid, items[1..]);
      var tail := Ends(mid, items[1..]);
      assert Ends(pos, items) == [pos] + tail;
      ReadItemAt(buf, pos, items[0], mid);
      ChainedCons(buf, items, pos, tail);
    }
  }

  /** Reads that each succeed from where the previous one stopped make
      `ReadAll` succeed with all of them. */
  lemma {:induction false} ReadAllChain(buf: seq<byte>, items: seq<Item>, ends: seq<nat>, first: nat, last: nat)
    requires |ends| == |items| + 1 && ends[0] == first && ends[|items|] == last
    requires Chained(buf, items, ends)
    ensures ReadAll(Cursor(buf, first), items) == Ok((items, Cursor(buf, last)))
    decreases |items|
  {
    if |items| > 0 {
      assert Chained(buf, items[1..], ends[1..]) by {
        forall k | 0 <= k < |items| - 1
          ensures ReadItem(Cursor(buf, ends[1..][k]), items[1..][k]) == Ok((items[1..][k], Cursor(buf, ends[1..][k + 1])))
        {
          assert ReadItem(Cursor(buf, ends[k + 1]), items[k + 1]) == Ok((items[k + 1], Cursor(buf, ends[k + 2])));
        }
      }
      ReadAllChain(buf, items[1..], ends[1..], ends[1], last);
      assert ReadItem(Cursor(buf, ends[0]), items[0]) == Ok((items[0], Cursor(buf, ends[1])));
      assert [items[0]] + items[1..] == items;
    }
  }

  /** The bytes of a sequence of write calls, wherever they sit in a
      buffer, read back call by call as the values written. */
  lemma ReadAllAt(buf: seq<byte>, pos: nat, items: seq<Item>, end: nat)
    requires end == pos + |Encodings(items)| <= |buf| && buf[pos..end] == Encodings(items)
    ensures ReadAll(Cursor(buf, pos), items) == Ok((items, Cursor(buf, end)))
  {
    ItemsAt(buf, pos, items);
    ReadAllChain(buf, items, Ends(pos, items), pos, end);
  }

  /** The file a writer session leaves after the write calls `items` and
      `fbuf_close`, with the checksum close reports. */
  function WrittenFile(algo: Algo, fifo: bool, items: seq<Item>, c: Compressor): (r: (seq<byte>, u32))
    requires Writable(items)
  {
    Seal(WriteAll(NewWriter(algo, fifo), items, c), c)
  }

  /** The final flush keeps the writer consistent. */
  lemma FlushConsistent(w: Writer, c: Compressor, algo: Algo)
    requires Consistent(w, c, algo) && |w.wbuf| < BLOCK_SIZE + MIN_BLOCK
    ensures Consistent(FinalFlush(w, c), c, algo)
  {
    if |w.wbuf| > 0 {
      EmitBlockConsistent(w, c, algo);
    }
  }

  /** The file `fbuf_close` leaves: the header's first eight bytes as
      written at open, then one frame per block, then the trailer on a
      FIFO; every block is non-empty and below the spill size. */
  lemma SealLayout(w: Writer, c: Compressor, algo: Algo)
    requires Consistent(w, c, algo) && |w.wbuf| < BLOCK_SIZE + MIN_BLOCK
    ensures Seal(w, c).0[..8] == Header(ZIP_FASTLZ, algo)[..8]
    ensures Seal(w, c).0[16..] == Frames(c, FinalFlush(w, c).blocks)
              + (if w.fifo then Trailer(FinalFlush(w, c).wtotal, Seal(w, c).1) else [])
    ensures forall k | 0 <= k < |FinalFlush(w, c).blocks| :: 0 < |FinalFlush(w, c).blocks[k]| < BLOCK_SIZE + MIN_BLOCK
    ensures FinalFlush(w, c).wtotal == |Concat(FinalFlush(w, c).blocks)|
  {
    FlushConsistent(w, c, algo);
    PrefixOfPrefix(w.sink, 8, 16);
  }

  /** A sealed consistent writer leaves a file the loader accepts, and
      loading it yields the contents of every flushed block with their
      checksum, next to the checksum `fbuf_close` stored. */
  lemma SealLoads(w: Writer, c: Compressor, d: Decompressor, algo: Algo)
    requires Consistent(w, c, algo) && |w.wbuf| < BLOCK_SIZE + MIN_BLOCK
    requires Inverts(c, d) && |Concat(w.blocks)| + |w.wbuf| + MIN_BLOCK <= TWO_32
    ensures Decompress(Seal(w, c).0, w.fifo, algo, d)
            == Ok(Loaded(Concat(FinalFlush(w, c).blocks),
                         Update(Init(algo), Concat(FinalFlush(w, c).blocks)),
                         Seal(w, c).1))
  {
    var f := FinalFlush(w, c);
    var pad: nat :| pad < MIN_BLOCK && Concat(f.blocks) == Concat(w.blocks) + w.wbuf + Zeros(pad);
    assert |Concat(f.blocks)| < TWO_32;
    SealLayout(w, c, algo);
    LoadFrames(Seal(w, c).0, w.fifo, algo, c, d, f.blocks,
               if w.fifo then Trailer(f.wtotal, Seal(w, c).1) else [], Seal(w, c).1);
  }

  /** Values written through a writer session and sealed by `fbuf_close`
      load back through `fbuf_decompress` and read back, call by call, as
      the values written; the checksum the file carries is the one the
      reader computes over the loaded bytes, and the one the writer's close
      reported. */
  lemma EndToEnd(algo: Algo, fifo: bool, items: seq<Item>, c: Compressor, d: Decompressor)
    requires Inverts(c, d) && Writable(items)
    requires |Encodings(items)| + MIN_BLOCK <= TWO_32
    ensures Decompress(WrittenFile(algo, fifo, items, c).0, fifo, algo, d).Ok?
    ensures var l := Decompress(WrittenFile(algo, fifo, items, c).0, fifo, algo, d).value;
      && ReadAll(Cursor(l.rbuf, 0), items) == Ok((items, Cursor(l.rbuf, |Encodings(items)|)))
      && l.expected == WrittenFile(algo, fifo, items, c).1
      && Finish(l.cs) == l.expected
  {
    var w := WriteAll(NewWriter(algo, fifo), items, c);
    WrittenWriter(algo, fifo, items, c);
    SealLoads(w, c, d, algo);
    var f := FinalFlush(w, c);
    var pad: nat :| pad < MIN_BLOCK && Concat(f.blocks) == Encodings(items) + Zeros(pad);
    var l := Decompress(Seal(w, c).0, fifo, algo, d).value;
    assert l.rbuf == Encodings(items) + Zeros(pad);
    SliceAppend(Encodings(items), Zeros(pad), |Encodings(items)|);
    ReadAllAt(l.rbuf, 0, items, |Encodings(items)|);
    SealChecksum(w, c, algo);
  }

  /** The writer the write calls `items` leave on a fresh session is
      consistent and holds exactly their encodings. */
  lemma WrittenWriter(algo: Algo, fifo: bool, items: seq<Item>, c: Compressor)
    requires Writable(items)
    ensures var w := WriteAll(NewWriter(algo, fifo), items, c);
      && Consistent(w, c, algo) && w.fifo == fifo
      && Concat(w.blocks) + w.wbuf == Encodings(items)
  {
    var w0 := NewWriter(algo, fifo);
    NewWriterConsistent(algo, fifo, c);
    WriteAllConsistent(w0, items, c, algo);
  }

  /** The checksum `fbuf_close` writes is the finished checksum over the
      contents of every block, padding included. */
  lemma SealChecksum(w: Writer, c: Compressor, algo: Algo)
    requires Consistent(w, c, algo) && |w.wbuf| < BLOCK_SIZE + MIN_BLOCK
    ensures Seal(w, c).1 == Finish(Update(Init(algo), Concat(FinalFlush(w, c).blocks)))
  {
    if |w.wbuf| > 0 {
      EmitBlockConsistent(w, c, algo);
    }
  }

  /** The whole session cycle through the registry: a reader session opened
      on the file a writer session sealed closes without a checksum fault
      and reports the checksum the writer reported, and the list is as it
      was before the reader opened. */
  lemma SessionRoundTrip(reg: Registry, id: Id, name: string, algo: Algo, fifo: bool,
                         items: seq<Item>, c: Compressor, d: Decompressor)
    requires Valid(reg) && id !in reg.sessions
    requires Inverts(c, d) && Writable(items)
    requires |Encodings(items)| + MIN_BLOCK <= TWO_32
    ensures OpenRead(reg, id, name, WrittenFile(algo, fifo, items, c).0, fifo, algo, d).Ok?
    ensures var reading := OpenRead(reg, id, name, WrittenFile(algo, fifo, items, c).0, fifo, algo, d).value;
      && Close(reading, id, c).Ok?
      && Close(reading, id, c).value.checksum == WrittenFile(algo, fifo, items, c).1
      && Close(reading, id, c).value.rest.open == reg.open
  {
    EndToEnd(algo, fifo, items, c, d);
    var reading := OpenRead(reg, id, name, WrittenFile(algo, fifo, items, c).0, fifo, algo, d).value;
    var l := Decompress(WrittenFile(algo, fifo, items, c).0, fifo, algo, d).value;
    assert reading.sessions[id].mode == In(Cursor(l.rbuf, 0), l.cs, l.expected);
    UnlinkIsWithout(reading.open, id);
    assert reading.open == [id] + reg.open;
    WithoutAbsent(reg.open, id);
  }

  /** A write call as the source makes it, with the unguarded flush. */
  function WriteItemAsWritten(w: Writer, item: Item, c: Compressor): (r: Writer)
    requires |w.wbuf| <= BLOCK_SIZE
    requires item.Raw? ==> |item.bytes| <= BLOCK_SIZE
    ensures |r.wbuf| <= BLOCK_SIZE && w.sink <= r.sink
    ensures |w.wbuf| + |Encoding(item)| > BLOCK_SIZE ==>
      r.blocks == w.blocks + [Padded(w.wbuf)] && r.wbuf == Encoding(item)
  {
    EncodingFits(item);
    PutAsWritten(w, Encoding(item), c)
  }

  /** A sequence of write calls as the source makes them. */
  function WriteAllAsWritten(w: Writer, items: seq<Item>, c: Compressor): (r: Writer)
    requires |w.wbuf| <= BLOCK_SIZE && Writable(items)
    ensures |r.wbuf| <= BLOCK_SIZE && w.sink <= r.sink
    decreases |items|
  {
    if |items| == 0 then w else WriteAllAsWritten(WriteItemAsWritten(w, items[0], c), items[1..], c)
  }

  /** Five `write_u8` calls and then a `write_raw` of more than
      `BLOCK_SIZE - 5` bytes. The source flushes the five pending bytes
      padded with eleven zeros, so its stream is not the encodings of the
      calls and a reader gets zeros where the raw bytes belong; the
      corrected `WriteAll` keeps the stream equal to the encodings. */
  lemma PaddingCorrupts(items: seq<Item>, c: Compressor)
    requires |items| == 6 && (forall k | 0 <= k < 5 :: items[k].U8?)
    requires items[5].Raw? && BLOCK_SIZE - 5 < |items[5].bytes| <= BLOCK_SIZE
    ensures Writable(items)
    ensures !Appends(NewWriter(NoSum, false), WriteAllAsWritten(NewWriter(NoSum, false), items, c), Encodings(items))
    ensures Appends(NewWriter(NoSum, false), WriteAll(NewWriter(NoSum, false), items, c), Encodings(items))
  {
    PaddedLength(items, c);
    EncodedLength(items);
  }

  /** The stream the source leaves on those calls: eleven bytes longer than
      what was written. */
  lemma PaddedLength(items: seq<Item>, c: Compressor)
    requires |items| == 6 && (forall k | 0 <= k < 5 :: items[k].U8?)
    requires items[5].Raw? && BLOCK_SIZE - 5 < |items[5].bytes| <= BLOCK_SIZE
    ensures Writable(items)
    ensures |Concat(WriteAllAsWritten(NewWriter(NoSum, false), items, c).blocks)
             + WriteAllAsWritten(NewWriter(NoSum, false), items, c).wbuf| == MIN_BLOCK + |items[5].bytes|
  {
    var w0 := NewWriter(NoSum, false);
    var xs, ys, raw := items[..5], items[5..], items[5].bytes;
    assert xs + ys == items;
    assert ys == [Raw(raw)];
    U8sAppend(w0, xs, c);
    var w5 := WriteAllAsWritten(w0, xs, c);
    assert |w5.wbuf| == 5 && w5.blocks == [];
    AsWrittenSplit(w0, xs, ys, c);
    JustOne(w5, Raw(raw), c);
    RawAsWritten(w5, raw, c);
  }

  /** A raw write as the source makes it, after fewer than 16 pending bytes
      it does not fit beside. */
  lemma RawAsWritten(w: Writer, raw: seq<byte>, c: Compressor)
    requires |raw| <= BLOCK_SIZE && 0 < |w.wbuf| < MIN_BLOCK && |w.wbuf| + |raw| > BLOCK_SIZE
    ensures |Concat(WriteItemAsWritten(w, Raw(raw), c).blocks) + WriteItemAsWritten(w, Raw(raw), c).wbuf|
            == |Concat(w.blocks)| + MIN_BLOCK + |raw|
  {
    assert Encoding(Raw(raw)) == raw;
    ConcatSnoc(w.blocks, Padded(w.wbuf));
  }

  /** What those calls write: five bytes, then the raw bytes. */
  lemma EncodedLength(items: seq<Item>)
    requires |items| == 6 && (forall k | 0 <= k < 5 :: items[k].U8?) && items[5].Raw?
    ensures |Encodings(items)| == 5 + |items[5].bytes|
  {
    var xs, ys := items[..5], items[5..];
    assert xs + ys == items;
    assert ys == [items[5]];
    EncodingsAppend(xs, ys);
    assert Encodings(ys) == items[5].bytes + [];
    assert |Encodings(xs)| == 5 by {
      assert Encodings(xs) == Encoding(xs[0]) + Encodings(xs[1..]);
      assert Encodings(xs[1..]) == Encoding(xs[1]) + Encodings(xs[2..]);
      assert Encodings(xs[2..]) == Encoding(xs[2]) + Encodings(xs[3..]);
      assert Encodings(xs[3..]) == Encoding(xs[3]) + Encodings(xs[4..]);
      assert Encodings(xs[4..]) == Encoding(xs[4]) + Encodings(xs[5..]);
    }
  }

  /** A single write call, as a sequence of one. */
  lemma JustOne(w: Writer, item: Item, c: Compressor)
    requires |w.wbuf| <= BLOCK_SIZE && (item.Raw? ==> |item.bytes| <= BLOCK_SIZE)
    ensures Writable([item]) && Encodings([item]) == Encoding(item)
    ensures WriteAllAsWritten(w, [item], c) == WriteItemAsWritten(w, item, c)
  {
    assert [item][1..] == [];
    assert Encodings([item]) == Encoding(item) + [];
  }

  /** The encodings of consecutive write calls follow each other. */
  lemma {:induction false} EncodingsAppend(xs: seq<Item>, ys: seq<Item>)
    ensures Encodings(xs + ys) == Encodings(xs) + Encodings(ys)
    decreases |xs|
  {
    if |xs| == 0 {
      assert xs + ys == ys;
    } else {
      assert (xs + ys)[0] == xs[0] && (xs + ys)[1..] == xs[1..] + ys;
      EncodingsAppend(xs[1..], ys);
      AppendAssoc(Encoding(xs[0]), Encodings(xs[1..]), Encodings(ys));
    }
  }

  /** Writes of single bytes that fit the block only append to the pending buffer. */
  lemma {:induction false} U8sAppend(w: Writer, items: seq<Item>, c: Compressor)
    requires |w.wbuf| + |items| <= BLOCK_SIZE
    requires forall k | 0 <= k < |items| :: items[k].U8?
    ensures Writable(items)
    ensures WriteAllAsWritten(w, items, c) == w.(wbuf := w.wbuf + Encodings(items))
    ensures |Encodings(items)| == |items|
    decreases |items|
  {
    if |items| == 0 {
      assert w.wbuf + Encodings(items) == w.wbuf;
    } else {
      var next := WriteItemAsWritten(w, items[0], c);
      assert next == w.(wbuf := w.wbuf + Encoding(items[0]));
      U8sAppend(next, items[1..], c);
      AppendAssoc(w.wbuf, Encoding(items[0]), Encodings(items[1..]));
    }
  }

  /** Writing `xs` and then `ys` is writing `xs + ys`. */
  lemma {:induction false} AsWrittenSplit(w: Writer, xs: seq<Item>, ys: seq<Item>, c: Compressor)
    requires |w.wbuf| <= BLOCK_SIZE && Writable(xs) && Writable(ys)
    ensures Writable(xs + ys)
    ensures WriteAllAsWritten(w, xs + ys, c) == WriteAllAsWritten(WriteAllAsWritten(w, xs, c), ys, c)
    decreases |xs|
  {
    WritableAppend(xs, ys);
    if |xs| == 0 {
      assert xs + ys == ys;
    } else {
      assert (xs + ys)[0] == xs[0];
      assert (xs + ys)[1..] == xs[1..] + ys;
      AsWrittenSplit(WriteItemAsWritten(w, xs[0], c), xs[1..], ys, c);
    }
  }

  lemma WritableAppend(xs: seq<Item>, ys: seq<Item>)
    requires Writable(xs) && Writable(ys)
    ensures Writable(xs + ys)
  {
    forall k | 0 <= k < |xs + ys| && (xs + ys)[k].Raw?
      ensures |(xs + ys)[k].bytes| <= BLOCK_SIZE
    {
      if k >= |xs| {
        assert (xs + ys)[k] == ys[k - |xs|];
      }
    }
  }

  /** No raw write longer than `BLOCK_SIZE - MIN_BLOCK` bytes. Every other
      write is at most ten bytes, so with fewer than 16 bytes pending no
      write passes the block size and the source never pads. */
  predicate Unpadded(items: seq<Item>) {
    forall k | 0 <= k < |items| :: items[k].Raw? ==> |items[k].bytes| <= BLOCK_SIZE - MIN_BLOCK
  }

  /** The bytes of a write call other than `write_raw`. */
  lemma ShortEncoding(item: Item)
    requires !item.Raw?
    ensures |Encoding(item)| <= 10
  {
    match item
    case Uint(v) => EncodeUintAtMostTen(v);
    case Int(i) => EncodeUintAtMostTen(ZigZag(i));
    case _ =>
  }

  /** A write call as the source makes it is the corrected call except
      when it meets the padding case. */
  lemma WriteItemAgrees(w: Writer, item: Item, c: Compressor)
    requires |w.wbuf| <= BLOCK_SIZE && (item.Raw? ==> |item.bytes| <= BLOCK_SIZE)
    ensures WriteItemAsWritten(w, item, c) == WriteItem(w, item, c)
            <==> !(0 < |w.wbuf| < MIN_BLOCK && |w.wbuf| + |Encoding(item)| > BLOCK_SIZE)
  {
    EncodingFits(item);
    AsWrittenAgrees(w, Encoding(item), c);
  }

  /** A list without a long raw write has no raw write over a block, and
      neither has its tail. */
  lemma UnpaddedWritable(items: seq<Item>)
    requires Unpadded(items)
    ensures Writable(items)
    ensures |items| > 0 ==> Unpadded(items[1..])
  {
    if |items| > 0 {
      forall k | 0 <= k < |items[1..]| && items[1..][k].Raw?
        ensures |items[1..][k].bytes| <= BLOCK_SIZE - MIN_BLOCK
      {
        assert items[1..][k] == items[k + 1];
      }
    }
  }

  /** On write calls without a long raw write, the source's writer and the
      corrected one leave the same writer, so everything proved of the
      corrected writer holds of the source's. */
  lemma {:induction false} WriteAllAgrees(w: Writer, items: seq<Item>, c: Compressor)
    requires |w.wbuf| <= BLOCK_SIZE && Unpadded(items)
    ensures Writable(items)
    ensures WriteAllAsWritten(w, items, c) == WriteAll(w, items, c)
    decreases |items|
  {
    UnpaddedWritable(items);
    if |items| > 0 {
      var next := FirstAgrees(w, items, c);
      WriteAllAgrees(next, items[1..], c);
    }
  }

  /** The first write call of a list without a long raw write leaves the
      same writer in both forms, and each form goes on from it. */
  lemma FirstAgrees(w: Writer, items: seq<Item>, c: Compressor) returns (next: Writer)
    requires |w.wbuf| <= BLOCK_SIZE && Unpadded(items) && |items| > 0
    ensures Writable(items) && |next.wbuf| <= BLOCK_SIZE
    ensures WriteAllAsWritten(w, items, c) == WriteAllAsWritten(next, items[1..], c)
    ensures WriteAll(w, items, c) == WriteAll(next, items[1..], c)
  {
    UnpaddedWritable(items);
    var item := items[0];
    assert !item.Raw? ==> |Encoding(item)| <= 10 by {
      if !item.Raw? {
        ShortEncoding(item);
      }
    }
    WriteItemAgrees(w, item, c);
    next := WriteItem(w, item, c);
  }

  /** The round trip through the source's own writer and loader: on write
      calls without a long raw write, the file the source's writer seals
      loads through the source's block loop and reads back as the values
      written, with the checksum the writer reported. */
  lemma EndToEndAsWritten(algo: Algo, fifo: bool, items: seq<Item>, c: Compressor, d: Decompressor)
    requires Inverts(c, d) && Unpadded(items)
    requires |Encodings(items)| + MIN_BLOCK <= TWO_32
    ensures Writable(items)
    ensures var file := Seal(WriteAllAsWritten(NewWriter(algo, fifo), items, c), c);
      && DecompressAsWritten(file.0, fifo, algo, d).Ok?
      && var l := DecompressAsWritten(file.0, fifo, algo, d).value;
      && ReadAll(Cursor(l.rbuf, 0), items) == Ok((items, Cursor(l.rbuf, |Encodings(items)|)))
      && l.expected == file.1
      && Finish(l.cs) == l.expected
  {
    var w0 := NewWriter(algo, fifo);
    WriteAllAgrees(w0, items, c);
    var file := Seal(WriteAllAsWritten(w0, items, c), c);
    assert file == WrittenFile(algo, fifo, items, c);
    EndToEnd(algo, fifo, items, c, d);
    assert Decompress(file.0, fifo, algo, d).Ok?;
    assert DecompressAsWritten(file.0, fifo, algo, d) == Decompress(file.0, fifo, algo, d);
  }
}
