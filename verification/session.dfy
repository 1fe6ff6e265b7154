/** Sessions in `src/fbuf.c`: the list of open sessions (`open_list`, a
    doubly linked list through `next` and `prev`), `fbuf_new`,
    `fbuf_close` and `fbuf_cleanup`.

    The list is modelled as the sequence of session ids from the head; the
    links are functions of that sequence (`Next`, `Prev`, `Head`), and the
    lemmas show that the sequence operations rewire them exactly as the
    link updates of the source do. Ids stand for the `fbuf_t *` addresses:
    the caller supplies a fresh one, as `xcalloc` does. */
module Session {
  import opened Bytes
  import opened Checksum
  import opened Faults
  import opened Format
  import opened Framer
  import opened Reader
  import opened Loader

  type Id = nat

  /** `NULL`, or the address of the session with the given id. */
  datatype Link = Nil | Link(id: Id)

  /** No session appears twice in the list. */
  predicate Distinct(ids: seq<Id>) {
    forall i, j | 0 <= i < j < |ids| :: ids[i] != ids[j]
  }

  /** The position of `id` in the list. */
  function IndexOf(ids: seq<Id>, id: Id): (i: nat)
    requires id in ids
    ensures i < |ids| && ids[i] == id && id !in ids[..i]
  {
    if ids[0] == id then 0
    else
      var i := 1 + IndexOf(ids[1..], id);
      assert ids[..i] == [ids[0]] + ids[1..][..i - 1];
      i
  }

  /** In a list without repeats, the position of an entry is where it is. */
  lemma IndexOfDistinct(ids: seq<Id>, k: nat)
    requires Distinct(ids) && k < |ids|
    ensures IndexOf(ids, ids[k]) == k
  {
  }

  /** `open_list`. */
  function Head(ids: seq<Id>): Link {
    if |ids| == 0 then Nil else Link(ids[0])
  }

  /** `f->next`. */
  function Next(ids: seq<Id>, id: Id): Link
    requires id in ids
  {
    var i := IndexOf(ids, id);
    if i + 1 < |ids| then Link(ids[i + 1]) else Nil
  }

  /** `f->prev`. */
  function Prev(ids: seq<Id>, id: Id): Link
    requires id in ids
  {
    var i := IndexOf(ids, id);
    if i == 0 then Nil else Link(ids[i - 1])
  }

  /** The list update of `fbuf_new`: the new session becomes the head, its
      `next` is the old head, and the old head's `prev` is the new session;
      nothing else is linked differently. */
  function Register(ids: seq<Id>, id: Id): (r: seq<Id>)
    requires Distinct(ids) && id !in ids
    ensures Distinct(r) && (forall x :: x in r <==> x == id || x in ids)
    ensures Head(r) == Link(id) && Next(r, id) == Head(ids)
    ensures |ids| > 0 ==> Prev(r, ids[0]) == Link(id)
  {
    var r := [id] + ids;
    IndexOfDistinct(r, 0);
    if |ids| > 0 then IndexOfDistinct(r, 1); r else r
  }

  /** Registering leaves the links among the older sessions as they were. */
  lemma RegisterKeepsLinks(ids: seq<Id>, id: Id, x: Id)
    requires Distinct(ids) && id !in ids && x in ids
    ensures Next(Register(ids, id), x) == Next(ids, x)
    ensures x != ids[0] ==> Prev(Register(ids, id), x) == Prev(ids, x)
  {
    var r := Register(ids, id);
    var i := IndexOf(ids, x);
    assert r == [id] + ids;
    assert r[i + 1] == x;
    IndexOfDistinct(r, i + 1);
    assert i + 2 < |r| ==> r[i + 2] == ids[i + 1];
    assert i > 0 ==> r[i] == ids[i - 1];
  }

  /** The list update of `fbuf_close`: a session without `prev` is the head,
      and the head moves to its `next`; otherwise its `prev` is linked to its
      `next`. */
  function Unlink(ids: seq<Id>, id: Id): (r: seq<Id>)
    requires Distinct(ids) && id in ids
    ensures |r| == |ids| - 1 && Distinct(r)
    ensures forall x :: x in r <==> x in ids && x != id
  {
    var i := IndexOf(ids, id);
    IndexOfDistinct(ids, i);
    RemoveAt(ids, i);
    assert i == 0 ==> ids[1..] == ids[..i] + ids[i + 1..];
    if Prev(ids, id) == Nil then ids[1..] else ids[..i] + ids[i + 1..]
  }

  /** Taking out the entry at `i` keeps every other entry, and no repeats. */
  lemma RemoveAt(ids: seq<Id>, i: nat)
    requires Distinct(ids) && i < |ids|
    ensures |ids[..i] + ids[i + 1..]| == |ids| - 1 && Distinct(ids[..i] + ids[i + 1..])
    ensures forall x :: x in ids[..i] + ids[i + 1..] <==> x in ids && x != ids[i]
  {
    var r := ids[..i] + ids[i + 1..];
    assert forall k | 0 <= k < |r| :: r[k] == if k < i then ids[k] else ids[k + 1];
    forall x | x in ids && x != ids[i]
      ensures x in r
    {
      var j :| 0 <= j < |ids| && ids[j] == x;
      if j < i {
        assert r[j] == x;
      } else {
        assert r[j - 1] == x;
      }
    }
  }

  /** A reference definition: the list without `id`. */
  function Without(ids: seq<Id>, id: Id): seq<Id> {
    if |ids| == 0 then []
    else (if ids[0] == id then [] else [ids[0]]) + Without(ids[1..], id)
  }

  /** Unlinking removes exactly the closed session and keeps the order of
      the others. */
  lemma UnlinkIsWithout(ids: seq<Id>, id: Id)
    requires Distinct(ids) && id in ids
    ensures Unlink(ids, id) == Without(ids, id)
  {
    var i := IndexOf(ids, id);
    var before, after := ids[..i], ids[i + 1..];
    assert Unlink(ids, id) == before + after by {
      IndexOfDistinct(ids, i);
      assert i == 0 ==> ids[1..] == before + after;
    }
    Split(ids, i);
    assert id !in after by {
      IndexOfDistinct(ids, i);
      forall k | 0 <= k < |after|
        ensures after[k] != id
      {
        assert after[k] == ids[i + 1 + k];
      }
    }
    assert id !in before;
    WithoutMiddle(before, id, after);
  }

  lemma Split(ids: seq<Id>, i: nat)
    requires i < |ids|
    ensures ids == ids[..i] + [ids[i]] + ids[i + 1..]
  {
  }

  /** Removing an id that occurs once leaves what surrounds it. */
  lemma WithoutMiddle(before: seq<Id>, id: Id, after: seq<Id>)
    requires id !in before && id !in after
    ensures Without(before + [id] + after, id) == before + after
  {
    var head := before + [id];
    WithoutConcat(head, after, id);
    WithoutConcat(before, [id], id);
    assert Without([id], id) == [] by {
      assert [id][1..] == [];
    }
    WithoutAbsent(before, id);
    WithoutAbsent(after, id);
    assert Without(head, id) == before + [];
    assert before + [] == before;
  }

  lemma {:induction false} WithoutConcat(a: seq<Id>, b: seq<Id>, id: Id)
    ensures Without(a + b, id) == Without(a, id) + Without(b, id)
  {
    if |a| > 0 {
      var head := if a[0] == id then [] else [a[0]];
      assert (a + b)[0] == a[0] && (a + b)[1..] == a[1..] + b;
      WithoutConcat(a[1..], b, id);
      assert Without(a + b, id) == head + Without(a[1..] + b, id);
      AppendAssoc(head, Without(a[1..], id), Without(b, id));
    } else {
      assert a + b == b;
    }
  }

  /** Removing an absent id changes nothing. */
  lemma {:induction false} WithoutAbsent(ids: seq<Id>, id: Id)
    requires id !in ids
    ensures Without(ids, id) == ids
  {
    if |ids| > 0 {
      assert id !in ids[1..];
      WithoutAbsent(ids[1..], id);
    }
  }

  /** The link updates of `fbuf_close`: when the session has no `prev`,
      its `next` becomes the head and loses its `prev`; otherwise its `prev`
      and its `next` are linked to each other, and the head stays. */
  lemma UnlinkRewires(ids: seq<Id>, id: Id)
    requires Distinct(ids) && id in ids
    ensures Prev(ids, id) == Nil ==>
              Head(Unlink(ids, id)) == Next(ids, id)
              && (Next(ids, id) != Nil ==> Prev(Unlink(ids, id), Next(ids, id).id) == Nil)
    ensures Prev(ids, id) != Nil ==>
              Head(Unlink(ids, id)) == Head(ids)
              && Next(Unlink(ids, id), Prev(ids, id).id) == Next(ids, id)
              && (Next(ids, id) != Nil ==> Prev(Unlink(ids, id), Next(ids, id).id) == Prev(ids, id))
  {
    var r := Unlink(ids, id);
    var i := IndexOf(ids, id);
    IndexOfDistinct(ids, i);
    if i > 0 {
      IndexOfDistinct(ids, i - 1);
      assert r[i - 1] == ids[i - 1];
      IndexOfDistinct(r, i - 1);
    }
    if i + 1 < |ids| {
      IndexOfDistinct(ids, i + 1);
      assert r[i] == ids[i + 1];
      IndexOfDistinct(r, i);
    }
  }

  /** What a session holds besides its list links. */
  datatype Mode =
    | Out(w: Writer)                                  // FBUF_OUT
    | In(cur: Cursor, cs: State, expected: u32)       // FBUF_IN, after the load

  datatype Session = Session(name: string, mode: Mode)

  /** The open sessions: the list from `open_list`, and each session by id. */
  datatype Registry = Registry(open: seq<Id>, sessions: map<Id, Session>)

  /** The list holds every open session once, and nothing else. */
  predicate Valid(reg: Registry) {
    && Distinct(reg.open)
    && (forall id | id in reg.open :: id in reg.sessions)
    && (forall id | id in reg.sessions :: id in reg.open)
  }

  /** `fbuf_new` for writing: a fresh writer with the header written,
      registered at the head of the list. */
  function OpenWrite(reg: Registry, id: Id, name: string, algo: Algo, fifo: bool): (r: Registry)
    requires Valid(reg) && id !in reg.sessions
    ensures Valid(r) && r.open == Register(reg.open, id)
    ensures id in r.sessions && r.sessions[id].mode.Out?
            && r.sessions[id].mode.w.wbuf == [] && r.sessions[id].mode.w.sink == Header(ZIP_FASTLZ, algo)
    ensures forall x | x in reg.sessions :: x in r.sessions && r.sessions[x] == reg.sessions[x]
  {
    Registry(Register(reg.open, id), reg.sessions[id := Session(name, Out(NewWriter(algo, fifo)))])
  }

  /** `fbuf_new` for reading: the file is loaded and checked by
      `fbuf_decompress`, and the session is registered with its read
      position at the start. A load that fails leaves the list as it was
      (the source reports the failure and exits). */
  function OpenRead(reg: Registry, id: Id, name: string, data: seq<byte>, fifo: bool, algo: Algo,
                    d: Decompressor): (r: Result<Registry>)
    requires Valid(reg) && id !in reg.sessions
    ensures r.Err? <==> Decompress(data, fifo, algo, d).Err?
    ensures r.Err? ==> r.fault == Decompress(data, fifo, algo, d).fault
    ensures r.Ok? ==> Valid(r.value) && r.value.open == Register(reg.open, id)
    ensures r.Ok? ==>
              && id in r.value.sessions && r.value.sessions[id].mode.In?
              && r.value.sessions[id].mode.cur == Cursor(Decompress(data, fifo, algo, d).value.rbuf, 0)
              && r.value.sessions[id].mode.expected == Decompress(data, fifo, algo, d).value.expected
  {
    match Decompress(data, fifo, algo, d)
    case Err(f) => Err(f)
    case Ok(l) =>
      Ok(Registry(Register(reg.open, id),
                  reg.sessions[id := Session(name, In(Cursor(l.rbuf, 0), l.cs, l.expected))]))
  }

  /** What a writer needs before it can be closed: the pending buffer within
      its bound and the header already in the sink. */
  predicate Sealable(w: Writer) {
    |w.wbuf| < BLOCK_SIZE + MIN_BLOCK && |w.sink| >= 16
  }

  /** The writer's part of `fbuf_close`: the final flush, the checksum
      finished over everything flushed, and the header rewritten (or the
      trailer appended) with the total and that checksum. Returns the whole
      file and the checksum. */
  function Seal(w: Writer, c: Compressor): (r: (seq<byte>, u32))
    requires Sealable(w)
    ensures r.1 == Finish(FinalFlush(w, c).cs)
    ensures |r.0| >= 16 && r.0[..8] == w.sink[..8]
    ensures EffectiveHeader(r.0, w.fifo)[8..] == Trailer(FinalFlush(w, c).wtotal, r.1)
    ensures r.0[16..] == FinalFlush(w, c).sink[16..] + (if w.fifo then Trailer(FinalFlush(w, c).wtotal, r.1) else [])
  {
    var f := FinalFlush(w, c);
    assert f.sink[..8] == w.sink[..8] by {
      if |w.wbuf| > 0 {
        assert f.sink == w.sink + Frame(c, Padded(w.wbuf));
      }
    }
    var cs := Finish(f.cs);
    var file := UpdateHeader(f.sink, f.fifo, f.wtotal, cs);
    SliceAppend(f.sink, Trailer(f.wtotal, cs), 16);
    (file, cs)
  }

  /** What `fbuf_close` hands back: the remaining sessions, the checksum,
      and for a writer the finished file (empty for a reader). */
  datatype Closed = Closed(rest: Registry, checksum: u32, file: seq<byte>)

  /** Everything a session needs to be closed. */
  predicate Closable(reg: Registry, id: Id) {
    Valid(reg) && id in reg.sessions && (reg.sessions[id].mode.Out? ==> Sealable(reg.sessions[id].mode.w))
  }

  /** The registry without the closed session. */
  function Drop(reg: Registry, id: Id): (r: Registry)
    requires Valid(reg) && id in reg.sessions
    ensures Valid(r) && r.open == Unlink(reg.open, id) && id !in r.sessions
    ensures forall x | x in reg.sessions && x != id :: x in r.sessions && r.sessions[x] == reg.sessions[x]
  {
    Registry(Unlink(reg.open, id), map x | x in reg.sessions && x != id :: reg.sessions[x])
  }

  /** `fbuf_close`: a writer flushes, finishes its checksum and seals the
      file; a reader finishes the checksum it folded while loading and fails
      when it differs from the one the file promised. Either way the session
      leaves the list. */
  function Close(reg: Registry, id: Id, c: Compressor): (r: Result<Closed>)
    requires Closable(reg, id)
    ensures r.Err? <==> reg.sessions[id].mode.In?
                        && Finish(reg.sessions[id].mode.cs) != reg.sessions[id].mode.expected
    ensures r.Err? ==> r.fault == ChecksumMismatch(Finish(reg.sessions[id].mode.cs), reg.sessions[id].mode.expected)
    ensures r.Ok? ==> r.value.rest == Drop(reg, id)
    ensures r.Ok? && reg.sessions[id].mode.In? ==> r.value.checksum == reg.sessions[id].mode.expected
    ensures r.Ok? && reg.sessions[id].mode.Out? ==>
              (r.value.file, r.value.checksum) == Seal(reg.sessions[id].mode.w, c)
  {
    match reg.sessions[id].mode
    case Out(w) =>
      var (file, cs) := Seal(w, c);
      Ok(Closed(Drop(reg, id), cs, file))
    case In(_, st, expected) =>
      var cs := Finish(st);
      if cs != expected then Err(ChecksumMismatch(cs, expected))
      else Ok(Closed(Drop(reg, id), cs, []))
  }

  /** `fbuf_cleanup`: every open session's file is closed, and the files of
      the writers are removed. The result is the names removed, in list
      order. */
  function Cleanup(ids: seq<Id>, sessions: map<Id, Session>): seq<string>
    requires forall x | x in ids :: x in sessions
  {
    if |ids| == 0 then []
    else
      var s := sessions[ids[0]];
      (if s.mode.Out? then [s.name] else []) + Cleanup(ids[1..], sessions)
  }

  /** Cleanup removes the file of every open writer and of nothing else. */
  lemma {:induction false} CleanupRemovesWriters(ids: seq<Id>, sessions: map<Id, Session>)
    requires forall x | x in ids :: x in sessions
    ensures forall n | n in Cleanup(ids, sessions) ::
              exists x | x in ids :: sessions[x].mode.Out? && sessions[x].name == n
    ensures forall x | x in ids && sessions[x].mode.Out? :: sessions[x].name in Cleanup(ids, sessions)
  {
    if |ids| > 0 {
      CleanupRemovesWriters(ids[1..], sessions);
      var s := sessions[ids[0]];
      var head := if s.mode.Out? then [s.name] else [];
      assert Cleanup(ids, sessions) == head + Cleanup(ids[1..], sessions);
      forall x | x in ids && sessions[x].mode.Out?
        ensures sessions[x].name in Cleanup(ids, sessions)
      {
        if x != ids[0] {
          assert x in ids[1..];
        }
      }
      forall n | n in Cleanup(ids, sessions)
        ensures exists x | x in ids :: sessions[x].mode.Out? && sessions[x].name == n
      {
        if n in head {
          assert ids[0] in ids;
        } else {
          var x :| x in ids[1..] && sessions[x].mode.Out? && sessions[x].name == n;
          assert x in ids;
        }
      }
    }
  }
}
