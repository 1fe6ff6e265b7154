/** The read side of an open container: the decompressed contents `rbuf`
    (`origsz` bytes) and the cursor `rptr` into them, with the primitive
    readers `read_u8` ... `read_raw` and the varint readers
    `fbuf_get_uint`/`fbuf_get_int`. Each read is guarded by `ASSERT_AVAIL`
    as a debug build compiles it: a read that would pass `origsz` fails with
    `ReadPastEnd` instead of reading beyond the buffer. */
module Reader {
  import opened Arith
  import opened Bytes
  import opened Faults
  import opened Varint

  datatype Cursor = Cursor(rbuf: seq<byte>, rptr: nat)
  {
    /** `origsz`: the decompressed length. */
    function Size(): nat { |rbuf| }
  }

  /** The `ASSERT_AVAIL(f, n)` check followed by `n` bytes assembled least
      significant first (`val |= byte << 8 * i`). The value read is the one
      whose `n`-byte little-endian encoding is exactly the bytes consumed. */
  function ReadFixed(cur: Cursor, n: nat): (r: Result<(nat, Cursor)>)
    ensures r.Ok? <==> cur.rptr + n <= cur.Size()
    ensures r.Err? ==> r.fault == ReadPastEnd
    ensures r.Ok? ==> r.value.1 == cur.(rptr := cur.rptr + n)
    ensures r.Ok? ==> r.value.0 < Pow(256, n)
                      && LE(r.value.0, n) == cur.rbuf[cur.rptr..cur.rptr + n]
  {
    if cur.rptr + n > |cur.rbuf| then Err(ReadPastEnd)
    else
      var bytes := cur.rbuf[cur.rptr..cur.rptr + n];
      LEOfFromLE(bytes);
      Ok((FromLE(bytes), cur.(rptr := cur.rptr + n)))
  }

  /** A fixed-width value written as `LE(u, n)` reads back as `u` modulo
      `256^n`, from whatever precedes or follows it in the buffer. */
  lemma ReadFixedRoundTrip(prefix: seq<byte>, u: nat, n: nat, suffix: seq<byte>)
    ensures var buf := prefix + LE(u, n) + suffix;
      ReadFixed(Cursor(buf, |prefix|), n) == Ok((u % Pow(256, n), Cursor(buf, |prefix| + n)))
  {
    var buf := prefix + LE(u, n) + suffix;
    assert buf[|prefix|..|prefix| + n] == LE(u, n);
    FromLEOfLE(u, n);
  }

  /** `read_u8`. */
  function ReadU8(cur: Cursor): (r: Result<(byte, Cursor)>)
    ensures r.Ok? <==> cur.rptr < cur.Size()
    ensures r.Ok? ==> r.value == (cur.rbuf[cur.rptr], cur.(rptr := cur.rptr + 1))
  {
    Widths();
    match ReadFixed(cur, 1)
    case Err(f) => Err(f)
    case Ok((v, next)) =>
      assert LE(v, 1) == [v % 256];
      Ok((v, next))
  }

  /** `read_u16`: two bytes, low byte first. */
  function ReadU16(cur: Cursor): (r: Result<(u16, Cursor)>)
    ensures r.Ok? <==> cur.rptr + 2 <= cur.Size()
    ensures r.Ok? ==> LE(r.value.0, 2) == cur.rbuf[cur.rptr..cur.rptr + 2]
                      && r.value.1 == cur.(rptr := cur.rptr + 2)
  {
    Widths();
    match ReadFixed(cur, 2)
    case Err(f) => Err(f)
    case Ok((v, next)) => Ok((v, next))
  }

  /** `read_u32`: four bytes, low byte first. */
  function ReadU32(cur: Cursor): (r: Result<(u32, Cursor)>)
    ensures r.Ok? <==> cur.rptr + 4 <= cur.Size()
    ensures r.Ok? ==> LE(r.value.0, 4) == cur.rbuf[cur.rptr..cur.rptr + 4]
                      && r.value.1 == cur.(rptr := cur.rptr + 4)
  {
    Widths();
    match ReadFixed(cur, 4)
    case Err(f) => Err(f)
    case Ok((v, next)) => Ok((v, next))
  }

  /** `read_u64`: eight bytes, low byte first. */
  function ReadU64(cur: Cursor): (r: Result<(u64, Cursor)>)
    ensures r.Ok? <==> cur.rptr + 8 <= cur.Size()
    ensures r.Ok? ==> LE(r.value.0, 8) == cur.rbuf[cur.rptr..cur.rptr + 8]
                      && r.value.1 == cur.(rptr := cur.rptr + 8)
  {
    Widths();
    match ReadFixed(cur, 8)
    case Err(f) => Err(f)
    case Ok((v, next)) => Ok((v, next))
  }

  /** `read_raw`: `len` bytes copied out as they are. */
  function ReadRaw(cur: Cursor, len: nat): (r: Result<(seq<byte>, Cursor)>)
    ensures r.Ok? <==> cur.rptr + len <= cur.Size()
    ensures r.Err? ==> r.fault == ReadPastEnd
    ensures r.Ok? ==> |r.value.0| == len && r.value.1 == cur.(rptr := cur.rptr + len)
                      && cur.rbuf[..cur.rptr] + r.value.0 == cur.rbuf[..cur.rptr + len]
  {
    if cur.rptr + len > |cur.rbuf| then Err(ReadPastEnd)
    else Ok((cur.rbuf[cur.rptr..cur.rptr + len], cur.(rptr := cur.rptr + len)))
  }

  /** `bs` is one complete varint: every byte but the last has its
      continuation bit set, and the last has it clear. */
  predicate Terminated(bs: seq<byte>) {
    |bs| >= 1 && bs[|bs| - 1] < 0x80 && forall k | 0 <= k < |bs| - 1 :: bs[k] >= 0x80
  }

  /** The first loop of `fbuf_get_uint`, for a varint starting at `start`
      with the bytes before `pos` already consumed: check a byte is
      available, store its low seven bits as the next group, and go on while
      its continuation bit is set. `dec` has room for ten groups; `overflow`
      is the outcome of storing an eleventh. On success it yields the
      position after the terminating byte. */
  function VarintEnd(buf: seq<byte>, start: nat, pos: nat, overflow: Fault): (r: Result<nat>)
    requires start <= pos <= start + 10
    ensures r.Ok? ==> pos < r.value <= |buf| && r.value <= start + 10
    ensures r.Ok? ==> buf[r.value - 1] < 0x80 && forall k | pos <= k < r.value - 1 :: buf[k] >= 0x80
    ensures r.Err? ==> r.fault == ReadPastEnd || r.fault == overflow
    decreases |buf| - pos
  {
    if pos >= |buf| then Err(ReadPastEnd)
    else if pos - start == 10 then Err(overflow)
    else if buf[pos] >= 0x80 then VarintEnd(buf, start, pos + 1, overflow)
    else Ok(pos + 1)
  }

  /** `VarintEnd` over a complete varint that ends at `end` and fits the
      room left in `dec` stops right after it. */
  lemma {:induction false} VarintEndAt(buf: seq<byte>, start: nat, pos: nat, end: nat, overflow: Fault)
    requires start <= pos < end <= start + 10 && end <= |buf|
    requires buf[end - 1] < 0x80 && forall k | pos <= k < end - 1 :: buf[k] >= 0x80
    ensures VarintEnd(buf, start, pos, overflow) == Ok(end)
    decreases end - pos
  {
    if pos < end - 1 {
      VarintEndAt(buf, start, pos + 1, end, overflow);
    }
  }

  /** The second loop of `fbuf_get_uint` over the consumed bytes: each
      keeps its low seven bits, and from the last group to the first the
      value is shifted left by seven and the group or-ed in, in 64 bits. */
  function Spell(bs: seq<byte>): (v: u64)
    ensures v == GroupValue(bs) % TWO_64
  {
    if |bs| == 0 then 0
    else
      ShiftInGroup(GroupValue(bs[1..]), bs[0] % 128);
      (Spell(bs[1..]) * 128 + bs[0] % 128) % TWO_64
  }

  /** `fbuf_get_uint` as the source writes it: `dec` is declared with ten
      entries but nothing stops an eleventh continuation byte from being
      stored past its end, which `OutOfBounds` stands for. */
  function GetUintAsWritten(cur: Cursor): (r: Result<(u64, Cursor)>)
    ensures r.Err? ==> r.fault == ReadPastEnd || r.fault == OutOfBounds
  {
    match VarintEnd(cur.rbuf, cur.rptr, cur.rptr, OutOfBounds)
    case Err(f) => Err(f)
    case Ok(end) => Ok((Spell(cur.rbuf[cur.rptr..end]), cur.(rptr := end)))
  }

  /** `fbuf_get_uint` with the bound on `dec` enforced: a varint longer than
      the ten bytes a 64-bit value needs is rejected. Otherwise the groups are
      reassembled into 64 bits as the second loop does. */
  function GetUint(cur: Cursor): (r: Result<(u64, Cursor)>)
    ensures r.Err? ==> r.fault == ReadPastEnd || r.fault == VarintTooLong
    ensures r.Ok? ==> cur.rptr < r.value.1.rptr <= cur.Size() && r.value.1.rbuf == cur.rbuf
  {
    match VarintEnd(cur.rbuf, cur.rptr, cur.rptr, VarintTooLong)
    case Err(f) => Err(f)
    case Ok(end) => Ok((Spell(cur.rbuf[cur.rptr..end]), cur.(rptr := end)))
  }

  /** What `fbuf_get_uint` consumes is one complete varint of at most ten
      bytes, and the value is the one those bytes spell, modulo 2^64. */
  lemma GetUintSpells(cur: Cursor)
    ensures GetUint(cur).Ok? ==>
              && Terminated(cur.rbuf[cur.rptr..GetUint(cur).value.1.rptr])
              && GetUint(cur).value.1.rptr - cur.rptr <= 10
              && GetUint(cur).value.0 == GroupValue(cur.rbuf[cur.rptr..GetUint(cur).value.1.rptr]) % TWO_64
  {
    match VarintEnd(cur.rbuf, cur.rptr, cur.rptr, VarintTooLong)
    case Err(_) =>
    case Ok(end) => TerminatedSlice(cur.rbuf, cur.rptr, end);
  }

  lemma TerminatedSlice(buf: seq<byte>, start: nat, end: nat)
    requires start < end <= |buf|
    requires buf[end - 1] < 0x80 && forall k | start <= k < end - 1 :: buf[k] >= 0x80
    ensures Terminated(buf[start..end])
  {
    var used := buf[start..end];
    forall k | 0 <= k < |used| - 1
      ensures used[k] >= 0x80
    {
      assert used[k] == buf[start + k];
    }
  }

  /** Any complete varint of at most ten bytes reads back as the value it
      spells and consumes exactly its bytes. */
  lemma GetUintOfTerminated(buf: seq<byte>, pos: nat, enc: seq<byte>, v: u64, end: nat)
    requires Terminated(enc) && |enc| <= 10 && GroupValue(enc) == v
    requires end == pos + |enc| <= |buf| && buf[pos..end] == enc
    ensures GetUint(Cursor(buf, pos)) == Ok((v, Cursor(buf, end)))
  {
    forall k | pos <= k < end - 1
      ensures buf[k] >= 0x80
    {
      assert buf[k] == enc[k - pos];
    }
    assert buf[end - 1] == enc[|enc| - 1];
    VarintEndAt(buf, pos, pos, end, VarintTooLong);
    DivModUnique(v, TWO_64, 0, v);
    assert Spell(buf[pos..end]) == v;
  }

  /** The encoder's bytes for any 64-bit value, wherever they sit in a
      buffer and whatever follows them, read back as that value and consume
      exactly the encoding. */
  lemma GetUintAt(buf: seq<byte>, pos: nat, v: u64, end: nat)
    requires end == pos + |EncodeUint(v)| <= |buf| && buf[pos..end] == EncodeUint(v)
    ensures GetUint(Cursor(buf, pos)) == Ok((v, Cursor(buf, end)))
  {
    var enc := EncodeUint(v);
    EncodeUintAtMostTen(v);
    assert Terminated(enc);
    GetUintOfTerminated(buf, pos, enc, v, end);
  }

  /** `VarintEnd` depends on `overflow` only for the outcome it names. */
  lemma {:induction false} VarintEndOverflowOnly(buf: seq<byte>, start: nat, pos: nat, f: Fault, g: Fault)
    requires start <= pos <= start + 10 && f != ReadPastEnd && g != ReadPastEnd
    ensures VarintEnd(buf, start, pos, f) == Err(f) <==> VarintEnd(buf, start, pos, g) == Err(g)
    ensures VarintEnd(buf, start, pos, f).Ok? || VarintEnd(buf, start, pos, f) == Err(ReadPastEnd) ==>
            VarintEnd(buf, start, pos, f) == VarintEnd(buf, start, pos, g)
    decreases |buf| - pos
  {
    if pos < |buf| && pos - start < 10 && buf[pos] >= 0x80 {
      VarintEndOverflowOnly(buf, start, pos + 1, f, g);
    }
  }

  /** The two readers differ only in what an over-long varint leads to. */
  lemma GetUintAgree(cur: Cursor)
    ensures GetUintAsWritten(cur) == Err(OutOfBounds) <==> GetUint(cur) == Err(VarintTooLong)
    ensures GetUintAsWritten(cur) != Err(OutOfBounds) ==> GetUintAsWritten(cur) == GetUint(cur)
  {
    VarintEndOverflowOnly(cur.rbuf, cur.rptr, cur.rptr, OutOfBounds, VarintTooLong);
  }

  /** Eleven bytes with the continuation bit set: the source stores the
      eleventh group past the end of `dec`. */
  lemma GetUintOverrun()
    ensures GetUintAsWritten(Cursor(seq(11, _ => 0x80) + [0], 0)) == Err(OutOfBounds)
    ensures GetUint(Cursor(seq(11, _ => 0x80) + [0], 0)) == Err(VarintTooLong)
  {
    var buf: seq<byte> := seq(11, _ => 0x80) + [0];
    var k := 10;
    while k > 0
      invariant 0 <= k <= 10
      invariant VarintEnd(buf, 0, k, OutOfBounds) == Err(OutOfBounds)
      invariant VarintEnd(buf, 0, k, VarintTooLong) == Err(VarintTooLong)
    {
      k := k - 1;
      assert buf[k] == 0x80;
    }
  }

  /** `fbuf_get_int`: a varint read back through the inverse zig-zag map. */
  function GetInt(cur: Cursor): (r: Result<(i64, Cursor)>)
    ensures r.Err? <==> GetUint(cur).Err?
    ensures r.Ok? ==> ZigZag(r.value.0) == GetUint(cur).value.0 && r.value.1 == GetUint(cur).value.1
  {
    match GetUint(cur)
    case Err(f) => Err(f)
    case Ok((zz, next)) =>
      ZigZagOnto(zz);
      Ok((UnZigZag(zz), next))
  }

  /** `fbuf_put_int`'s bytes for any 64-bit signed value, wherever they
      sit in a buffer, read back as that value. */
  lemma GetIntAt(buf: seq<byte>, pos: nat, i: i64, end: nat)
    requires end == pos + |EncodeUint(ZigZag(i))| <= |buf| && buf[pos..end] == EncodeUint(ZigZag(i))
    ensures GetInt(Cursor(buf, pos)) == Ok((i, Cursor(buf, end)))
  {
    GetUintAt(buf, pos, ZigZag(i), end);
    ZigZagRoundTrip(i);
  }
}
