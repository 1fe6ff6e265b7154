/** The checksum engine of `src/fbuf.c`: a tagged state for the two
    algorithms (none, and Adler-32 as in section 2.2 of RFC 1950), the
    byte-at-a-time recurrence as the reference update, the source's batched
    `adler32_update` loop proved equal to it, and `checksum_finish`. */
module Checksum {
  import opened Arith
  import opened Bytes

  /** The Adler-32 modulus, the largest prime below 2^16. */
  const BASE: nat := 65521

  /** A running sum already reduced modulo `BASE`. */
  type Residue = x: nat | x < 65521

  /** `fbuf_cs_t`. */
  datatype Algo = NoSum | Adler32

  /** The value of `fbuf_cs_t` stored in header byte 5. The enumeration's
      declaration is not part of this model: NONE = 0 and ADLER32 = 1 follow
      its declaration order, and only their distinctness matters here. */
  function Tag(a: Algo): byte {
    match a
    case NoSum => 0
    case Adler32 => 1
  }

  /** `cs_state_t` without its `expect` field (kept by the reader):
      the algorithm and, for Adler-32, the two sums. */
  datatype State = NoneState | AdlerState(s1: Residue, s2: Residue) {
    function Algorithm(): Algo {
      if NoneState? then NoSum else Adler32
    }
  }

  /** `checksum_init`: Adler-32 starts with `s1 = 1`, `s2 = 0`. */
  function Init(a: Algo): (st: State)
    ensures st.Algorithm() == a
    ensures a == Adler32 ==> st.s1 == 1 && st.s2 == 0
  {
    match a
    case NoSum => NoneState
    case Adler32 => AdlerState(1, 0)
  }

  /** One byte of the recurrence: `s1 := (s1 + b) mod BASE`, then
      `s2 := (s2 + s1) mod BASE`. The none algorithm ignores its input. */
  function Step(st: State, b: byte): State {
    match st
    case NoneState => NoneState
    case AdlerState(s1, s2) =>
      var t := (s1 + b) % BASE;
      AdlerState(t, (s2 + t) % BASE)
  }

  /** `checksum_update`, specified byte by byte: the state after folding
      `data` into `st` one byte at a time, first byte first. */
  function Update(st: State, data: seq<byte>): (r: State)
    ensures r.Algorithm() == st.Algorithm()
    ensures st.NoneState? ==> r == st
    decreases |data|
  {
    if |data| == 0 then st else Step(Update(st, data[..|data| - 1]), data[|data| - 1])
  }

  /** Updating on `a` then on `b` is updating on `a + b`: the checksum sees
      the bytes, not the block boundaries they arrived in. */
  lemma {:induction false} UpdateConcat(st: State, a: seq<byte>, b: seq<byte>)
    ensures Update(st, a + b) == Update(Update(st, a), b)
    decreases |b|
  {
    if |b| == 0 {
      assert a + b == a;
    } else {
      var b' := b[..|b| - 1];
      assert (a + b)[..|a + b| - 1] == a + b';
      UpdateConcat(st, a, b');
    }
  }

  /** `checksum_finish`: `(s1 << 16) | s2` for Adler-32 -- `s1` in the HIGH
      half, the reverse of RFC 1950's `s2 * 65536 + s1` -- and 0 otherwise. */
  function Finish(st: State): (r: u32)
    ensures st.NoneState? ==> r == 0
    ensures st.AdlerState? ==> r / 0x1_0000 == st.s1 && r % 0x1_0000 == st.s2
  {
    match st
    case NoneState => 0
    case AdlerState(s1, s2) => s1 * 0x1_0000 + s2
  }

  /** Two Adler-32 states finish to the same value only if they are equal. */
  lemma FinishInjective(x: State, y: State)
    requires x.AdlerState? && y.AdlerState? && Finish(x) == Finish(y)
    ensures x == y
  {
  }

  /** How the remaining length's residues move when a batch of eight is taken. */
  lemma BatchRemainder(length: nat)
    requires length > 0 && length % 8 == 0
    ensures (length - 8) % 8 == 0
    ensures length % 0x8000 == 0 ==> (length - 8) % 0x8000 == 0x8000 - 8
    ensures length % 0x8000 != 0 ==> (length - 8) % 0x8000 == length % 0x8000 - 8
  {
    var q, r := length / 0x8000, length % 0x8000;
    assert r % 8 == 0 by {
      DivModUnique(length, 8, q * 0x1000 + r / 8, r % 8);
    }
    if r == 0 {
      DivModUnique(length - 8, 0x8000, q - 1, 0x8000 - 8);
    } else {
      DivModUnique(length - 8, 0x8000, q, r - 8);
    }
    DivModUnique(length - 8, 8, length / 8 - 1, 0);
  }

  /** One subtraction of the modulus keeps the residue. */
  lemma ReduceOnce(a: nat)
    requires a >= BASE
    ensures (a - BASE) % BASE == a % BASE
  {
    DivModUnique(a, BASE, (a - BASE) / BASE + 1, (a - BASE) % BASE);
  }

  /** Reducing twice is reducing once. */
  lemma ReduceTwice(b: nat)
    ensures (b % BASE) % BASE == b % BASE
  {
    DivModUnique(b % BASE, BASE, 0, b % BASE);
  }

  /** One more byte keeps unreduced sums congruent to the reference sums. */
  lemma StepCongruent(st: State, input: seq<byte>, k: nat, a: nat, b: nat)
    requires st.AdlerState? && k < |input|
    requires a % BASE == Update(st, input[..k]).s1 && b % BASE == Update(st, input[..k]).s2
    ensures (a + input[k]) % BASE == Update(st, input[..k + 1]).s1
    ensures (b + a + input[k]) % BASE == Update(st, input[..k + 1]).s2
  {
    var x, prev := input[k], Update(st, input[..k]);
    assert input[..k + 1][..k] == input[..k];
    assert Update(st, input[..k + 1]) == Step(prev, x);
    var t := a + x;
    ModAdd(a, x, BASE);
    assert t % BASE == (prev.s1 + x) % BASE;
    ModAdd(b, t, BASE);
    ModAdd(t, b % BASE, BASE);
    assert (b + t) % BASE == (t % BASE + prev.s2) % BASE;
  }

  /** What `AddUnreduced` keeps after `j` of its `count` bytes: the sums
      are congruent to the reference sums and within their bounds. */
  ghost predicate Partial(st: State, input: seq<byte>, i: nat, j: nat, count: nat, a0: nat, b0: nat, a: nat, b: nat)
    requires st.AdlerState? && i + j <= |input|
  {
    && a <= a0 + 255 * j && b <= b0 + j * (a0 + 255 * count)
    && a % BASE == Update(st, input[..i + j]).s1
    && b % BASE == Update(st, input[..i + j]).s2
  }

  /** The sums after adding `count` bytes from position `i`, without any
      reduction: the inner step of both loops of `adler32_update`. */
  method AddUnreduced(ghost st: State, input: seq<byte>, i: nat, count: nat, a0: nat, b0: nat)
    returns (a: nat, b: nat)
    requires st.AdlerState? && i + count <= |input|
    requires a0 % BASE == Update(st, input[..i]).s1 && b0 % BASE == Update(st, input[..i]).s2
    ensures a % BASE == Update(st, input[..i + count]).s1
    ensures b % BASE == Update(st, input[..i + count]).s2
    ensures a <= a0 + 255 * count && b <= b0 + count * (a0 + 255 * count)
  {
    a, b := a0, b0;
    var j := 0;
    while j < count
      invariant j <= count
      invariant Partial(st, input, i, j, count, a0, b0, a, b)
    {
      AddStep(st, input, i, j, count, a0, b0, a, b);
      a := a + input[i + j];
      b := b + a;
      j := j + 1;
    }
  }

  /** One pass of the loop of `AddUnreduced`. */
  lemma AddStep(st: State, input: seq<byte>, i: nat, j: nat, count: nat, a0: nat, b0: nat, a: nat, b: nat)
    requires st.AdlerState? && j < count && i + count <= |input|
    requires Partial(st, input, i, j, count, a0, b0, a, b)
    ensures Partial(st, input, i, j + 1, count, a0, b0, a + input[i + j], b + (a + input[i + j]))
  {
    StepCongruent(st, input, i + j, a, b);
    StepBound(j, count, a0, b0, a, b, input[i + j]);
  }

  /** One more byte keeps the unreduced sums within the bounds `AddUnreduced` states. */
  lemma StepBound(j: nat, count: nat, a0: nat, b0: nat, a: nat, b: nat, x: byte)
    requires j < count && a <= a0 + 255 * j && b <= b0 + j * (a0 + 255 * count)
    ensures a + x <= a0 + 255 * (j + 1)
    ensures b + (a + x) <= b0 + (j + 1) * (a0 + 255 * count)
  {
    var bound := a0 + 255 * count;
    assert (j + 1) * bound == j * bound + bound;
  }

  /** One more batch of eight keeps the unreduced `s2` within the bound the
      main loop relies on, and below 2^32 for the 0x1000 batches between
      two reductions. */
  lemma BatchBound(c: nat, s1: nat, s2: nat, n2: nat)
    requires s1 < BASE && s2 < BASE + c * 8 * (BASE + 2040)
    requires n2 <= s2 + 8 * (s1 + 255 * 8) && c < 0x1000
    ensures n2 < BASE + (c + 1) * 8 * (BASE + 2040) && n2 < TWO_32
  {
    assert (c + 1) * 8 * (BASE + 2040) == c * 8 * (BASE + 2040) + 8 * (BASE + 2040);
    assert c * 8 * (BASE + 2040) <= 0xFFF * 8 * (BASE + 2040);
  }

  /** What the main loop of `adler32_update` keeps at position `i` with
      `length` bytes left: `s1` is reduced, `s2` has grown by at most `c`
      batches since its last reduction, and both are congruent to the
      byte-at-a-time sums of the input consumed so far. */
  ghost predicate BatchInvariant(st: State, input: seq<byte>, i: nat, length: nat, s1: nat, s2: nat, c: nat)
    requires st.AdlerState?
  {
    i + length == |input| && length % 8 == 0
    && s1 < BASE
    && s2 < BASE + c * 8 * (BASE + 2040) && s2 < TWO_32
    && c * 8 + length % 0x8000 <= 0x8000
    && (length % 0x8000 == 0 ==> c == 0)
    && s1 % BASE == Update(st, input[..i]).s1
    && s2 % BASE == Update(st, input[..i]).s2
  }

  /** One pass of the main loop: eight bytes added, `s1` reduced by one
      subtraction, `s2` reduced when the remaining length is a multiple of
      0x8000. */
  method Batch(ghost st: State, input: seq<byte>, i: nat, length: nat, s1: nat, s2: nat, ghost c: nat)
    returns (n1: nat, n2: nat, ghost nc: nat)
    requires st.AdlerState? && length > 0
    requires BatchInvariant(st, input, i, length, s1, s2, c)
    ensures length >= 8 && BatchInvariant(st, input, i + 8, length - 8, n1, n2, nc)
  {
    assert c < 0x1000;
    n1, n2 := AddUnreduced(st, input, i, 8, s1, s2);
    BatchBound(c, s1, s2, n2);
    BatchRemainder(length);
    if n1 >= BASE {
      ReduceOnce(n1);
      n1 := n1 - BASE;
    }
    if (length - 8) % 0x8000 == 0 {
      ReduceTwice(n2);
      n2 := n2 % BASE;
      nc := 0;
    } else {
      nc := c + 1;
    }
  }

  /** The main loop of `adler32_update`: batches of eight bytes from
      position `i`, where the remaining length is a multiple of eight. The
      unreduced `s2` stays below 2^32, so the source's `unsigned long` never
      wraps. */
  method AdlerBatches(ghost st: State, input: seq<byte>, i0: nat, a0: Residue, b0: Residue)
    returns (a: Residue, b: Residue)
    requires st.AdlerState? && i0 <= |input| && (|input| - i0) % 8 == 0
    requires a0 == Update(st, input[..i0]).s1 && b0 == Update(st, input[..i0]).s2
    ensures AdlerState(a, b) == Update(st, input)
  {
    ReduceTwice(a0);
    ReduceTwice(b0);
    var s1: nat, s2: nat := a0, b0;
    var i: nat := i0;
    ghost var c: nat := 0;  // batches since `s2` was last reduced
    var length: nat := |input| - i;
    while length > 0
      invariant BatchInvariant(st, input, i, length, s1, s2, c)
    {
      s1, s2, c := Batch(st, input, i, length, s1, s2, c);
      length := length - 8;
      i := i + 8;
    }
    assert input[..i] == input;
    DivModUnique(s1, BASE, 0, s1);
    DivModUnique(s2, BASE, 0, s2);
    a, b := s1, s2;
  }

  /** The do-while of `adler32_update`: the `length % 8` leading bytes one
      at a time, then one reduction of each sum. */
  method LeadingBytes(ghost st: State, input: seq<byte>, s1: Residue, s2: Residue)
    returns (a: Residue, b: Residue, i: nat)
    requires st == AdlerState(s1, s2)
    ensures i == |input| % 8
    ensures a == Update(st, input[..i]).s1 && b == Update(st, input[..i]).s2
  {
    assert input[..0] == [];
    ReduceTwice(s1);
    ReduceTwice(s2);
    i := |input| % 8;
    if i == 0 {
      a, b := s1, s2;
    } else {
      var n1, n2 := AddUnreduced(st, input, 0, i, s1, s2);
      if n1 >= BASE {
        ReduceOnce(n1);
        n1 := n1 - BASE;
      }
      DivModUnique(n1, BASE, 0, n1);
      ReduceTwice(n2);
      DivModUnique(n2 % BASE, BASE, 0, n2 % BASE);
      a, b := n1, n2 % BASE;
    }
  }

  /** `adler32_update` as the source writes it: the leading bytes, then the
      batches of eight. Its result is the byte-at-a-time recurrence. */
  method Adler32Update(s1: Residue, s2: Residue, input: seq<byte>) returns (r1: Residue, r2: Residue)
    ensures AdlerState(r1, r2) == Update(AdlerState(s1, s2), input)
  {
    ghost var st := AdlerState(s1, s2);
    var a, b, i := LeadingBytes(st, input, s1, s2);
    r1, r2 := AdlerBatches(st, input, i, a, b);
  }

  /** `checksum_update`: dispatch on the algorithm; none leaves the state alone. */
  method ChecksumUpdate(st: State, input: seq<byte>) returns (r: State)
    ensures r == Update(st, input)
  {
    match st
    case NoneState =>
      r := st;
    case AdlerState(s1, s2) =>
      var r1, r2 := Adler32Update(s1, s2, input);
      r := AdlerState(r1, r2);
  }
}
