/** readi and writei on pipes: an inode's eighteen direct blocks used as a ring (Kernel/inode.c). */
module Pipes {
  import opened Blocks
  import opened FreeList
  import opened Ownership
  import opened BlockMap
  import opened Files

  const RING: nat := 9216      // 18 * BLKSIZE
  const CAPACITY: nat := 8192  // 16 * BLKSIZE

  /** An offset after moving k bytes on, within one block: writei and readi reset it at the ring's end. */
  function Advance(off: nat, k: nat): nat {
    if off + k >= RING then 0 else off + k
  }

  /** Pipe n holds exactly the bytes held, oldest first, between the reader's and the writer's offset. */
  ghost predicate IsPipe(v: View, n: nat, roff: nat, woff: nat, held: seq<Byte>) {
    && Shape(v) && n < |v.inodes| && v.inodes[n].size == |held| <= CAPACITY
    && roff < RING && woff == (roff + |held|) % RING
    && forall i :: 0 <= i < |held| ==> held[i] == ByteAt(v, n, (roff + i) % RING)
  }

  lemma PipeSize(v: View, n: nat, roff: nat, woff: nat, held: seq<Byte>)
    requires IsPipe(v, n, roff, woff, held)
    ensures Shape(v) && n < |v.inodes| && v.inodes[n].size == |held| <= CAPACITY && roff < RING && woff < RING
  {
  }

  /** The writer's and the reader's offsets are i_size apart around the ring. */
  lemma OffsetsApart(v: View, n: nat, roff: nat, woff: nat, held: seq<Byte>)
    requires IsPipe(v, n, roff, woff, held)
    ensures (woff + RING - roff) % RING == v.inodes[n].size
  {
  }

  /** Around the ring: the free part a piece goes into, and the held part it stays clear of. */
  lemma AroundTheRing(roff: nat, len: nat, k: nat, i: nat)
    requires roff < RING && i < len + k && len + k <= CAPACITY
    requires var woff := (roff + len) % RING; 0 < k <= BLKSIZE - woff % BLKSIZE
    ensures
      var woff, o := (roff + len) % RING, (roff + i) % RING;
      && woff + k <= RING && Advance(woff, k) == (roff + len + k) % RING
      && (i < len ==> !(woff <= o < woff + k))
      && (i >= len ==> o == woff + (i - len))
  {
    var woff := (roff + len) % RING;
    assert woff / BLKSIZE <= 17;
    assert roff + len < RING ==> woff == roff + len;
    assert roff + len >= RING ==> woff == roff + len - RING;
  }

  /** Putting a piece in at the writer's offset does not touch the bytes still held. */
  lemma PipePut(v: View, v': View, n: nat, roff: nat, woff: nat, held: seq<Byte>, piece: seq<Byte>)
    requires IsPipe(v, n, roff, woff, held) && Wrote(v, v', n, woff, piece)
    requires 0 < |piece| <= BLKSIZE - woff % BLKSIZE && |held| + |piece| <= CAPACITY
    ensures IsPipe(Resized(v', n, |held| + |piece|), n, roff, Advance(woff, |piece|), held + piece)
  {
    hide Map, ByteAt;
    var v2 := Resized(v', n, |held| + |piece|);
    ResizedMap(v', n, |held| + |piece|, 0);
    AroundTheRing(roff, |held|, |piece|, |held|);
    forall i | 0 <= i < |held + piece|
      ensures (held + piece)[i] == ByteAt(v2, n, (roff + i) % RING)
    {
      AroundTheRing(roff, |held|, |piece|, i);
      ResizedMap(v', n, |held| + |piece|, (roff + i) % RING);
      assert ByteAt(v', n, (roff + i) % RING) == (held + piece)[i];
    }
  }

  /** Taking the oldest bytes out. */
  lemma PipeGet(v: View, n: nat, roff: nat, woff: nat, held: seq<Byte>, k: nat)
    requires IsPipe(v, n, roff, woff, held) && 0 < k <= |held| && k <= BLKSIZE - roff % BLKSIZE
    ensures IsPipe(Resized(v, n, |held| - k), n, Advance(roff, k), woff, held[k..])
    ensures roff + k <= MAXOFF && Bytes(v, n, roff, k) == held[..k]
  {
    hide Map, ByteAt;
    var v2 := Resized(v, n, |held| - k);
    ResizedMap(v, n, |held| - k, 0);
    assert roff + k <= RING by {
      assert roff / BLKSIZE <= 17;
    }
    forall i | 0 <= i < |held[k..]|
      ensures held[k..][i] == ByteAt(v2, n, (Advance(roff, k) + i) % RING)
    {
      assert (Advance(roff, k) + i) % RING == (roff + (k + i)) % RING;
      ResizedMap(v, n, |held| - k, (roff + (k + i)) % RING);
    }
    forall i | 0 <= i < k
      ensures Bytes(v, n, roff, k)[i] == held[..k][i]
    {
      assert (roff + i) % RING == roff + i;
    }
  }

  /** One round of readi's loop on a pipe. */
  lemma GetStep(v0: View, v: View, n: nat, roff: nat, woff: nat, held: seq<Byte>, done: nat, amount: nat, block: Block)
    requires Owns(v) && done + amount <= |held| && IsPipe(v, n, roff, woff, held[done..]) && OthersKept(v0, v, n)
    requires 0 < amount <= BLKSIZE - roff % BLKSIZE
    requires block == var b := Map(v, n, Block512(roff)); if b == 0 || b >= |v.disk| then ZeroBlock() else v.disk[b]
    ensures
      var v' := Resized(v, n, |held| - done - amount);
      && Owns(v') && IsPipe(v', n, Advance(roff, amount), woff, held[done + amount..]) && OthersKept(v0, v', n)
      && held[..done] + block[roff % BLKSIZE..roff % BLKSIZE + amount] == held[..done + amount]
  {
    hide IsPipe, Owns, OthersKept, ByteAt, Map, Bytes, ZeroBlock;
    var cur, size, at := held[done..], |held| - done - amount, roff % BLKSIZE;
    PipeSize(v, n, roff, woff, cur);
    PipeGet(v, n, roff, woff, cur, amount);
    BytesMore(v, n, roff, 0, amount, block);
    ResizedOwns(v, n, size, 0);
    WroteOthersKept(v, Resized(v, n, size), n, 0, []);
    OthersTrans(v0, v, Resized(v, n, size), n);
    assert Bytes(v, n, roff, 0) == [];
    assert block[at..at + amount] == cur[..amount] == held[done..done + amount];
    assert cur[amount..] == held[done + amount..];
  }

  /** What became of one call: it went to sleep, found the other end closed, or moved some bytes. */
  datatype Outcome = Slept | Closed | Moved

  /** writei on a pipe.  It sleeps until the whole request fits; then it writes block by block, stopping
      early only if the device has no block for the ring. */
  method WritePipe(fs: Fs, n: nat, woff: nat, data: seq<Byte>, readers: nat, ghost roff: nat, ghost held: seq<Byte>)
    returns (outcome: Outcome, woff': nat, w: nat)
    requires fs.Valid() && IsPipe(fs.Now(), n, roff, woff, held)
    modifies fs, fs.st, fs.st.sfree
    ensures fs.Valid() && w <= |data|
    ensures IsPipe(fs.Now(), n, roff, woff', held + data[..w])
    ensures OthersKept(old(fs.Now()), fs.Now(), n)
    ensures |data| > CAPACITY - |held| <==> outcome != Moved
    ensures outcome != Moved ==>
      fs.Now() == old(fs.Now()) && w == 0 && woff' == woff && (outcome == Closed <==> readers == 0)
    ensures outcome == Moved && w < |data| ==> fs.st.stack == []
  {
    hide IsPipe, Owns, Mounted, Wrote, OthersKept, ByteAt, Map, Missing;
    ghost var v := fs.Now();
    PipeSize(v, n, roff, woff, held);
    OthersRefl(v, n);
    woff', w := woff, 0;
    assert held + data[..0] == held;
    if |data| > CAPACITY - fs.inodes[n].size {
      return if readers == 0 then Closed else Slept, woff, 0;
    }
    outcome := Moved;
    var towrite := |data|;
    while towrite > 0
      invariant 0 <= towrite == |data| - w && fs.Valid() && n < |fs.inodes|
      invariant IsPipe(fs.Now(), n, roff, woff', held + data[..w]) && OthersKept(v, fs.Now(), n)
    {
      ghost var v1, cur := fs.Now(), held + data[..w];
      PipeSize(v1, n, roff, woff', cur);
      var amount := Min(towrite, BLKSIZE - woff' % BLKSIZE);
      var piece := data[w..w + amount];
      var ok := WriteBlock(fs, n, woff', piece);
      ghost var v2 := fs.Now();
      WroteOthersKept(v1, v2, n, woff', if ok then piece else []);
      OthersTrans(v, v1, v2, n);
      if !ok {
        PipeUntouched(v1, v2, n, roff, woff', cur);
        break;
      }
      ResizedOwns(v2, n, |cur| + amount, 0);
      WroteOthersKept(v2, Resized(v2, n, |cur| + amount), n, 0, []);
      OthersTrans(v, v2, Resized(v2, n, |cur| + amount), n);
      PipePut(v1, v2, n, roff, woff', cur, piece);
      assert cur + piece == held + data[..w + amount];
      woff' := Advance(woff', amount);
      fs.inodes := fs.inodes[n := fs.inodes[n].(size := fs.inodes[n].size + amount)];
      towrite, w := towrite - amount, w + amount;
    }
  }

  lemma PipeUntouched(v: View, v': View, n: nat, roff: nat, woff: nat, held: seq<Byte>)
    requires IsPipe(v, n, roff, woff, held) && Wrote(v, v', n, woff, []) && v'.inodes[n].size == v.inodes[n].size
    ensures IsPipe(v', n, roff, woff, held)
  {
    forall i | 0 <= i < |held|
      ensures held[i] == ByteAt(v', n, (roff + i) % RING)
    {
      assert (roff + i) % RING < MAXOFF;
    }
  }

  /** readi on a pipe.  An empty pipe makes it sleep, or return nothing when no writer is left; otherwise
      it takes as many of the oldest bytes as were asked for and are there. */
  method ReadPipe(fs: Fs, n: nat, roff: nat, count: nat, writers: nat, ghost woff: nat, ghost held: seq<Byte>)
    returns (outcome: Outcome, roff': nat, out: seq<Byte>)
    requires fs.Valid() && IsPipe(fs.Now(), n, roff, woff, held)
    modifies fs, fs.st, fs.st.sfree
    ensures fs.Valid() && |out| <= |held|
    ensures out == held[..|out|] && IsPipe(fs.Now(), n, roff', woff, held[|out|..])
    ensures held == [] <==> outcome != Moved
    ensures outcome != Moved ==>
      fs.Now() == old(fs.Now()) && out == [] && roff' == roff && (outcome == Closed <==> writers == 0)
    ensures outcome == Moved ==> |out| == Min(count, |held|)
    ensures OthersKept(old(fs.Now()), fs.Now(), n)
  {
    hide IsPipe, Owns, Mounted, OthersKept, ByteAt, Map, Bytes, ZeroBlock, Missing, Remap;
    ghost var v := fs.Now();
    PipeSize(v, n, roff, woff, held);
    OthersRefl(v, n);
    roff', out := roff, [];
    if fs.inodes[n].size == 0 {
      return if writers == 0 then Closed else Slept, roff, [];
    }
    outcome := Moved;
    ghost var k := Min(count, fs.inodes[n].size);
    var toread := Min(count, fs.inodes[n].size);
    while toread > 0
      invariant 0 <= toread == k - |out| && k <= |held| && out == held[..|out|] && fs.Valid()
      invariant IsPipe(fs.Now(), n, roff', woff, held[|out|..]) && OthersKept(v, fs.Now(), n)
    {
      ghost var v1, cur := fs.Now(), held[|out|..];
      PipeSize(v1, n, roff', woff, cur);
      var amount := Min(toread, BLKSIZE - roff' % BLKSIZE);
      var at := roff' % BLKSIZE;
      var pblk := fs.Bmap(n, Block512(roff'), true);
      Readable512(v1, n, Block512(roff'));
      var block := if pblk == NULLBLK then ZeroBlock() else fs.st.disk[pblk];
      GetStep(v, v1, n, roff', woff, held, |out|, amount, block);
      out := out + block[at..at + amount];
      roff' := Advance(roff', amount);
      toread := toread - amount;
      fs.inodes := fs.inodes[n := fs.inodes[n].(size := fs.inodes[n].size - amount)];
    }
  }

  /** What the reader or the writer of a pipe tries next. */
  datatype Event = TryWrite(data: seq<Byte>) | TryRead(k: nat)

  /** The device, the two ends' offsets and the bytes held between two calls. */
  datatype Moment = Moment(v: View, roff: nat, woff: nat, held: seq<Byte>)

  /** What one call does on pipe n, with the other end open: a write that does not fit whole and a read of an
      empty pipe sleep; otherwise a write appends its data, all of it unless the device is full, and a read takes
      the oldest bytes, as many as it asked for if they are there. */
  ghost predicate Round(n: nat, m: Moment, e: Event, outcome: Outcome, bytes: seq<Byte>, m': Moment) {
    && OthersKept(m.v, m'.v, n)
    && outcome == (if (match e case TryWrite(data) => |data| > CAPACITY - |m.held| case TryRead(_) => m.held == [])
                   then Slept else Moved)
    && (outcome == Slept ==> bytes == [] && m' == m)
    && (outcome == Moved ==>
        match e
        case TryWrite(data) =>
          bytes <= data && m'.held == m.held + bytes && m'.roff == m.roff && (bytes != data ==> m'.v.free == [])
        case TryRead(k) =>
          |bytes| == Min(k, |m.held|) && m.held == bytes + m'.held && m'.woff == m.woff)
  }

  /** What the writer, and what the reader, has moved in all. */
  function Sent(events: seq<Event>, bytes: seq<seq<Byte>>): seq<Byte>
    requires |bytes| == |events|
  {
    if events == [] then [] else
      var k := |events| - 1;
      Sent(events[..k], bytes[..k]) + if events[k].TryWrite? then bytes[k] else []
  }

  function Got(events: seq<Event>, bytes: seq<seq<Byte>>): seq<Byte>
    requires |bytes| == |events|
  {
    if events == [] then [] else
      var k := |events| - 1;
      Got(events[..k], bytes[..k]) + if events[k].TryRead? then bytes[k] else []
  }

  lemma SentMore(events: seq<Event>, bytes: seq<seq<Byte>>, e: Event, b: seq<Byte>)
    requires |bytes| == |events|
    ensures Sent(events + [e], bytes + [b]) == Sent(events, bytes) + if e.TryWrite? then b else []
    ensures Got(events + [e], bytes + [b]) == Got(events, bytes) + if e.TryRead? then b else []
  {
    assert (events + [e])[..|events|] == events && (bytes + [b])[..|bytes|] == bytes;
  }

  /** Any interleaving of one reader and one writer, calls that sleep included.  Each call does exactly its round,
      and what has been read, followed by what the pipe still holds, is what has been written, in order. */
  method Interleave(fs: Fs, n: nat, events: seq<Event>)
    returns (outcomes: seq<Outcome>, bytes: seq<seq<Byte>>, ghost moments: seq<Moment>)
    requires fs.Valid() && IsPipe(fs.Now(), n, 0, 0, [])
    modifies fs, fs.st, fs.st.sfree
    ensures fs.Valid() && |outcomes| == |bytes| == |events| && |moments| == |events| + 1
    ensures moments[0] == Moment(old(fs.Now()), 0, 0, []) && moments[|events|].v == fs.Now()
    ensures forall i :: 0 <= i <= |events| ==> var m := moments[i]; IsPipe(m.v, n, m.roff, m.woff, m.held)
    ensures forall i :: 0 <= i < |events| ==> Round(n, moments[i], events[i], outcomes[i], bytes[i], moments[i + 1])
    ensures Got(events, bytes) + moments[|events|].held == Sent(events, bytes)
  {
    hide IsPipe, Owns, Mounted, OthersKept, Round, Sent, Got;
    ghost var m := Moment(fs.Now(), 0, 0, []);
    var roff, woff := 0, 0;
    outcomes, bytes, moments := [], [], [m];
    NoneMoved();
    for i := 0 to |events|
      invariant fs.Valid() && |outcomes| == |bytes| == i && |moments| == i + 1 && moments[0].v == old(fs.Now())
      invariant moments[0] == Moment(old(fs.Now()), 0, 0, []) && moments[i] == m && m.v == fs.Now()
      invariant m.roff == roff && m.woff == woff
      invariant forall j :: 0 <= j <= i ==> var m := moments[j]; IsPipe(m.v, n, m.roff, m.woff, m.held)
      invariant forall j :: 0 <= j < i ==> Round(n, moments[j], events[j], outcomes[j], bytes[j], moments[j + 1])
      invariant Got(events[..i], bytes) + m.held == Sent(events[..i], bytes)
    {
      ghost var m0, got, sent := m, Got(events[..i], bytes), Sent(events[..i], bytes);
      var outcome, moved;
      outcome, roff, woff, moved, m := Try(fs, n, events[i], roff, woff, m);
      SentMore(events[..i], bytes, events[i], moved);
      assert events[..i + 1] == events[..i] + [events[i]];
      Conserved(n, m0, events[i], outcome, moved, m, got, sent);
      outcomes, bytes, moments := outcomes + [outcome], bytes + [moved], moments + [m];
    }
    assert events[..|events|] == events;
  }

  lemma NoneMoved()
    ensures Sent([], []) == [] && Got([], []) == []
  {
  }

  lemma Conserved(n: nat, m: Moment, e: Event, outcome: Outcome, moved: seq<Byte>, m': Moment, got: seq<Byte>, sent: seq<Byte>)
    requires Round(n, m, e, outcome, moved, m') && got + m.held == sent
    ensures (got + if e.TryRead? then moved else []) + m'.held == sent + if e.TryWrite? then moved else []
  {
    hide OthersKept;
    if outcome == Slept {
      assert got + [] == got && sent + [] == sent;
    } else if e.TryRead? {
      assert got + moved + m'.held == got + (moved + m'.held);
      assert sent + [] == sent;
    } else {
      assert got + (m.held + moved) == got + m.held + moved;
      assert got + [] == got;
    }
  }

  /** One call by one end. */
  method Try(fs: Fs, n: nat, e: Event, roff: nat, woff: nat, ghost m: Moment)
    returns (outcome: Outcome, roff': nat, woff': nat, bytes: seq<Byte>, ghost m': Moment)
    requires fs.Valid() && m.v == fs.Now() && m.roff == roff && m.woff == woff && IsPipe(m.v, n, roff, woff, m.held)
    modifies fs, fs.st, fs.st.sfree
    ensures fs.Valid() && m'.v == fs.Now() && m'.roff == roff' && m'.woff == woff' && IsPipe(m'.v, n, roff', woff', m'.held)
    ensures Round(n, m, e, outcome, bytes, m')
  {
    hide IsPipe, Owns, Mounted, OthersKept;
    roff', woff' := roff, woff;
    match e {
      case TryWrite(data) =>
        var w;
        outcome, woff', w := WritePipe(fs, n, woff, data, 1, roff, m.held);
        bytes := data[..w];
        m' := Moment(fs.Now(), roff, woff', m.held + bytes);
        assert outcome == Slept ==> m.held + bytes == m.held;
        assert w == |data| ==> bytes == data;
      case TryRead(k) =>
        outcome, roff', bytes := ReadPipe(fs, n, roff, k, 1, woff, m.held);
        m' := Moment(fs.Now(), roff', woff, m.held[|bytes|..]);
        assert outcome == Slept ==> m.held[|bytes|..] == m.held;
        assert m.held == bytes + m.held[|bytes|..];
    }
  }
}
