/** readi and writei on regular files and directories: a file is a sequence of bytes (Kernel/inode.c). */
module Files {
  import opened Blocks
  import opened FreeList
  import opened Ownership
  import opened BlockMap
  import opened Truncate

  /** 1 << BLKOVERSIZE: offsets from here on are refused. */
  const MAXOFF: nat := 33554432

  const EFBIG: nat := 27
  const ENOSPC: nat := 28

  /** The I/O fields of a process: the memory it transfers to or from, and how much of it. */
  class Udata {
    var mem: seq<Byte>
    var base: nat
    var offset: nat
    var count: int
    var error: nat

    constructor (mem: seq<Byte>, base: nat, count: nat, offset: nat)
      ensures this.mem == mem && this.base == base && this.offset == offset && this.count == count && error == 0
    {
      this.mem, this.base, this.offset, this.count, this.error := mem, base, offset, count, 0;
    }
  }

  function Min(a: nat, b: nat): nat {
    if a < b then a else b
  }

  function Block512(off: nat): Word
    requires off < MAXOFF
  {
    off / BLKSIZE
  }

  /** The byte at an offset of a file, whether or not it is below i_size; holes read as zero. */
  ghost function ByteAt(v: View, n: nat, off: nat): Byte
    requires Shape(v) && n < |v.inodes| && off < MAXOFF
  {
    var b := Map(v, n, Block512(off));
    if b == 0 || b >= |v.disk| then 0 else v.disk[b][off % BLKSIZE]
  }

  /** A file's size is within bounds and nothing but zeros lies beyond it. */
  ghost predicate TailZero(v: View, n: nat)
    requires Shape(v) && n < |v.inodes|
  {
    v.inodes[n].size <= MAXOFF && forall off :: v.inodes[n].size <= off < MAXOFF ==> ByteAt(v, n, off) == 0
  }

  /** What a file holds. */
  ghost function Content(v: View, n: nat): (s: seq<Byte>)
    requires Shape(v) && n < |v.inodes| && v.inodes[n].size <= MAXOFF
    ensures |s| == v.inodes[n].size
  {
    seq(v.inodes[n].size, i requires 0 <= i < v.inodes[n].size => ByteAt(v, n, i))
  }

  /** The bytes data placed at offset off of a file that held s; a gap is filled with zeros. */
  function Splice(s: seq<Byte>, off: nat, data: seq<Byte>): seq<Byte> {
    var padded := if |s| < off then s + seq(off - |s|, _ => 0) else s;
    padded[..off] + data + if |padded| <= off + |data| then [] else padded[off + |data|..]
  }

  lemma SpliceIs(s: seq<Byte>, off: nat, data: seq<Byte>)
    ensures var r := Splice(s, off, data);
      && |r| == (if off + |data| > |s| then off + |data| else |s|)
      && forall i :: 0 <= i < |r| ==>
           r[i] == if off <= i < off + |data| then data[i - off] else if i < |s| then s[i] else 0
  {
  }

  /** v' differs from v only in holding data at offset off of file n, and perhaps in the inode of n. */
  ghost predicate Wrote(v: View, v': View, n: nat, off: nat, data: seq<Byte>) {
    && Shape(v) && Shape(v') && |v'.inodes| == |v.inodes| && n < |v.inodes|
    && (forall m :: 0 <= m < |v.inodes| ==>
          v'.inodes[m].mode == v.inodes[m].mode && (m != n ==> v'.inodes[m] == v.inodes[m]))
    && (forall m: nat, o: nat :: m < |v.inodes| && o < MAXOFF ==>
          ByteAt(v', m, o) == if m == n && off <= o < off + |data| then data[o - off] else ByteAt(v, m, o))
    && (forall m: nat, bm: Word :: m < |v.inodes| && Map(v, m, bm) != 0 ==> Map(v', m, bm) == Map(v, m, bm))
    && (data != [] ==> off + |data| <= MAXOFF)
    && (forall bm: Word :: Touched(off, |data|, bm) ==> Map(v', n, bm) != 0)
  }

  /** Some of the len bytes from off on lie in logical block bm. */
  predicate Touched(off: nat, len: nat, bm: Word) {
    len > 0 && off < BLKSIZE * (bm + 1) && BLKSIZE * bm < off + len
  }

  lemma WroteRefl(v: View, n: nat, off: nat)
    requires Shape(v) && n < |v.inodes|
    ensures Wrote(v, v, n, off, [])
  {
  }

  lemma WroteTrans(v: View, v1: View, v2: View, n: nat, off: nat, data: seq<Byte>, more: seq<Byte>)
    requires Wrote(v, v1, n, off, data) && Wrote(v1, v2, n, off + |data|, more)
    ensures Wrote(v, v2, n, off, data + more)
  {
    hide ByteAt, Shape, Map;
    forall bm: Word | Touched(off, |data + more|, bm)
      ensures Map(v2, n, bm) != 0
    {
      assert Touched(off, |data|, bm) || Touched(off + |data|, |more|, bm);
    }
  }

  /** Allocating a block does not change what any file reads as: new blocks are zeroed. */
  lemma BmapKeeps(v: View, v': View, n: nat, bn: Word, r: Word, m: nat, o: nat)
    requires Owns(v) && Remap(v, v', n, bn, r) && n < |v.inodes| && m < |v.inodes| && o < MAXOFF
    requires Map(v, n, bn) != 0 ==> v' == v
    requires r != 0 && Map(v, n, bn) == 0 ==> r < |v'.disk| && v'.disk[r] == ZeroBlock()
    ensures ByteAt(v', m, o) == ByteAt(v, m, o)
  {
    if Map(v, m, Block512(o)) != 0 {
      NodeRole(v, m, Block512(o), 3);
    }
  }

  /** Storing into a data block that file n maps at bn changes no mapping and no ownership. */
  lemma StoreMap(v: View, n: nat, bn: Word, data: Block, m: nat, bm: Word)
    requires Owns(v) && n < |v.inodes| && m < |v.inodes| && Map(v, n, bn) != 0
    ensures Map(v, n, bn) < |v.disk|
    ensures Map(v.(disk := v.disk[Map(v, n, bn) := data]), m, bm) == Map(v, m, bm)
  {
    NodeRole(v, n, bn, 3);
    if bm >= DIRECT && Node(v, m, bm, 2) != 0 {
      NodeRole(v, m, bm, 2);
    }
    if bm >= DIRECT + PTRS && Node(v, m, bm, 1) != 0 {
      NodeRole(v, m, bm, 1);
    }
  }

  lemma StoreOwns(v: View, n: nat, bn: Word, data: Block)
    requires Owns(v) && n < |v.inodes| && Map(v, n, bn) != 0
    ensures Map(v, n, bn) < |v.disk| && Map(v, n, bn) !in v.free
    ensures Owns(v.(disk := v.disk[Map(v, n, bn) := data]))
  {
    NodeRole(v, n, bn, 3);
    var v' := v.(disk := v.disk[Map(v, n, bn) := data]);
    forall b: nat | b < |v'.role| && v'.role[b].Owned?
      ensures CellOk(v', v'.role[b].cell, v'.role[b].level) && CellValue(v', v'.role[b].cell) == b && v'.role[b].level <= 2
    {
      assert CellOk(v, v.role[b].cell, v.role[b].level) && CellValue(v, v.role[b].cell) == b;
    }
  }

  /** Storing into a block changes exactly the bytes of the one logical block that maps to it. */
  lemma StoreByte(v: View, n: nat, bn: Word, data: Block, m: nat, o: nat)
    requires Owns(v) && n < |v.inodes| && m < |v.inodes| && o < MAXOFF && Map(v, n, bn) != 0
    ensures Map(v, n, bn) < |v.disk|
    ensures ByteAt(v.(disk := v.disk[Map(v, n, bn) := data]), m, o) ==
      if m == n && Block512(o) == bn then data[o % BLKSIZE] else ByteAt(v, m, o)
  {
    StoreMap(v, n, bn, data, m, Block512(o));
    if Map(v, m, Block512(o)) == Map(v, n, bn) {
      MapInjective(v, n, bn, m, Block512(o));
    }
  }

  /** A block was found or allocated and part of it replaced: that part of the file is written. */
  lemma WrotePiece(v: View, v1: View, n: nat, at: nat, piece: seq<Byte>, p: Word, block: Block)
    requires Owns(v) && Owns(v1) && n < |v.inodes| && at < MAXOFF && 0 < |piece| <= BLKSIZE - at % BLKSIZE
    requires Remap(v, v1, n, Block512(at), p) && 0 != p < |v1.disk|
    requires Map(v, n, Block512(at)) != 0 ==> v1 == v
    requires Map(v, n, Block512(at)) == 0 ==> v1.disk[p] == ZeroBlock()
    requires block == PutBytes(v1.disk[p], at % BLKSIZE, piece)
    ensures Wrote(v, v1.(disk := v1.disk[p := block]), n, at, piece)
  {
    var bn, v' := Block512(at), v1.(disk := v1.disk[p := block]);
    assert Map(v1, n, bn) == p;
    forall m: nat, o: nat | m < |v.inodes| && o < MAXOFF
      ensures ByteAt(v', m, o) == if m == n && at <= o < at + |piece| then piece[o - at] else ByteAt(v, m, o)
    {
      BmapKeeps(v, v1, n, bn, p, m, o);
      StoreByte(v1, n, bn, block, m, o);
      InBlock(at, |piece|, o);
    }
    forall m: nat, bm: Word | m < |v.inodes|
      ensures Map(v', m, bm) == Map(v1, m, bm)
    {
      StoreMap(v1, n, bn, block, m, bm);
    }
  }

  /** Offsets of a piece that does not cross a block boundary. */
  lemma InBlock(at: nat, k: nat, o: nat)
    requires at < MAXOFF && o < MAXOFF && 0 < k <= BLKSIZE - at % BLKSIZE
    ensures at <= o < at + k <==> Block512(o) == Block512(at) && at % BLKSIZE <= o % BLKSIZE < at % BLKSIZE + k
    ensures at <= o < at + k ==> o - at == o % BLKSIZE - at % BLKSIZE
  {
  }

  /** A failed bmap changes nothing a reader could see. */
  lemma WroteNothing(v: View, v1: View, n: nat, bn: Word, off: nat)
    requires Owns(v) && n < |v.inodes| && Remap(v, v1, n, bn, 0)
    requires Map(v, n, bn) != 0 ==> v1 == v
    ensures Wrote(v, v1, n, off, [])
  {
    forall m: nat, o: nat | m < |v.inodes| && o < MAXOFF
      ensures ByteAt(v1, m, o) == ByteAt(v, m, o)
    {
      BmapKeeps(v, v1, n, bn, 0, m, o);
    }
  }

  /** i_size plays no part in the block map. */
  ghost function Resized(v: View, n: nat, size: nat): View
    requires n < |v.inodes|
  {
    v.(inodes := v.inodes[n := v.inodes[n].(size := size)])
  }

  lemma ResizedOwns(v: View, n: nat, size: nat, off: nat)
    requires Owns(v) && n < |v.inodes|
    ensures Owns(Resized(v, n, size))
    ensures Wrote(v, Resized(v, n, size), n, off, [])
  {
    var v' := Resized(v, n, size);
    assert forall m :: 0 <= m < |v.inodes| ==> v'.inodes[m].addr == v.inodes[m].addr;
    assert BackOk(v') by {
      forall b: nat | b < |v'.role| && v'.role[b].Owned?
        ensures CellOk(v', v'.role[b].cell, v'.role[b].level) && CellValue(v', v'.role[b].cell) == b && v'.role[b].level <= 2
      {
        assert CellOk(v, v.role[b].cell, v.role[b].level) && CellValue(v, v.role[b].cell) == b;
      }
    }
  }

  lemma ResizedMap(v: View, n: nat, size: nat, o: nat)
    requires Shape(v) && n < |v.inodes|
    ensures Shape(Resized(v, n, size))
    ensures o < MAXOFF ==> Map(Resized(v, n, size), n, Block512(o)) == Map(v, n, Block512(o))
    ensures o < MAXOFF ==> ByteAt(Resized(v, n, size), n, o) == ByteAt(v, n, o)
  {
  }

  /** A file after a write: the old content with the data spliced in, and still zeros beyond its end. */
  lemma WroteContent(v: View, v': View, n: nat, off: nat, data: seq<Byte>)
    requires Wrote(v, v', n, off, data) && TailZero(v, n) && off + |data| <= MAXOFF
    requires v'.inodes[n].size == if off + |data| > v.inodes[n].size then off + |data| else v.inodes[n].size
    ensures TailZero(v', n)
    ensures Content(v', n) == Splice(Content(v, n), off, data)
  {
  }

  /** The other files are not affected by a write. */
  lemma WroteOthers(v: View, v': View, n: nat, off: nat, data: seq<Byte>, m: nat)
    requires Wrote(v, v', n, off, data) && m < |v.inodes| && m != n && TailZero(v, m)
    ensures TailZero(v', m) && Content(v', m) == Content(v, m)
  {
  }

  /** k bytes of a file from an offset, whether or not they are below its size. */
  ghost function Bytes(v: View, n: nat, off: nat, k: nat): (s: seq<Byte>)
    requires Shape(v) && n < |v.inodes| && off + k <= MAXOFF
    ensures |s| == k
  {
    seq(off + k, i requires 0 <= i < off + k => ByteAt(v, n, i))[off..]
  }

  /** One round of readi's loop: the part of a block it copies is the next part of the file. */
  lemma BytesMore(v: View, n: nat, off: nat, k: nat, amount: nat, block: Block)
    requires Shape(v) && n < |v.inodes| && off + k + amount <= MAXOFF
    requires 0 < amount <= BLKSIZE - (off + k) % BLKSIZE
    requires block == var b := Map(v, n, Block512(off + k)); if b == 0 || b >= |v.disk| then ZeroBlock() else v.disk[b]
    ensures var at := (off + k) % BLKSIZE; Bytes(v, n, off, k + amount) == Bytes(v, n, off, k) + block[at..at + amount]
  {
    var at := (off + k) % BLKSIZE;
    var more := Bytes(v, n, off, k + amount);
    forall i | k <= i < k + amount
      ensures more[i] == block[at..at + amount][i - k]
    {
      InBlock(off + k, amount, off + i);
    }
  }

  /** File n holds exactly the bytes s. */
  ghost predicate IsFile(v: View, n: nat, s: seq<Byte>) {
    Shape(v) && n < |v.inodes| && TailZero(v, n) && Content(v, n) == s
  }

  lemma FileSize(v: View, n: nat, s: seq<Byte>)
    requires IsFile(v, n, s)
    ensures n < |v.inodes| && v.inodes[n].size == |s| <= MAXOFF && Shape(v) && Content(v, n) == s
  {
  }

  /** A write, seen on the file written and on the others. */
  lemma WroteFile(v: View, v': View, n: nat, off: nat, data: seq<Byte>, s: seq<Byte>)
    requires Wrote(v, v', n, off, data) && IsFile(v, n, s) && off + |data| <= MAXOFF
    requires v'.inodes[n].size == if off + |data| > |s| then off + |data| else |s|
    ensures IsFile(v', n, Splice(s, off, data))
    ensures OthersKept(v, v', n)
  {
    WroteContent(v, v', n, off, data);
    WroteOthersKept(v, v', n, off, data);
  }

  lemma WroteOthersKept(v: View, v': View, n: nat, off: nat, data: seq<Byte>)
    requires Wrote(v, v', n, off, data)
    ensures OthersKept(v, v', n)
  {
    forall m: nat, t: seq<Byte> | m != n && IsFile(v, m, t)
      ensures IsFile(v', m, t)
    {
      WroteOthers(v, v', n, off, data, m);
    }
  }

  lemma OthersRefl(v: View, n: nat)
    ensures OthersKept(v, v, n)
  {
  }

  lemma OthersTrans(v: View, v1: View, v2: View, n: nat)
    requires OthersKept(v, v1, n) && OthersKept(v1, v2, n)
    ensures OthersKept(v, v2, n)
  {
    hide IsFile;
  }

  /** The files other than n hold what they held. */
  ghost predicate OthersKept(v: View, v': View, n: nat) {
    forall m: nat, t: seq<Byte> :: m != n && IsFile(v, m, t) ==> IsFile(v', m, t)
  }

  /** Memory with s copied in at base. */
  function Patch(mem: seq<Byte>, base: nat, s: seq<Byte>): seq<Byte>
    requires base + |s| <= |mem|
  {
    mem[..base] + s + mem[base + |s|..]
  }

  lemma PatchMore(mem: seq<Byte>, base: nat, s: seq<Byte>, t: seq<Byte>)
    requires base + |s| + |t| <= |mem|
    ensures Patch(Patch(mem, base, s), base + |s|, t) == Patch(mem, base, s + t)
  {
  }

  /** How many bytes a read of count bytes at off gets: as many as asked for, or all up to the end. */
  function Readable(size: nat, off: nat, count: nat): (k: nat)
    ensures k <= count && (k > 0 ==> off + k <= size) && (k < count ==> size <= off + k)
  {
    if size <= off then 0 else Min(count, size - off)
  }

  /** done bytes of the file have been copied to base; nothing else in memory has changed. */
  ghost predicate CopiedOut(mem: seq<Byte>, mem': seq<Byte>, base: nat, v: View, n: nat, off: nat, done: nat) {
    && Shape(v) && n < |v.inodes| && base + done <= |mem| && |mem'| == |mem|
    && if done == 0 then mem' == mem else off + done <= MAXOFF && mem' == Patch(mem, base, Bytes(v, n, off, done))
  }

  lemma CopyStart(mem: seq<Byte>, base: nat, v: View, n: nat, off: nat)
    requires Shape(v) && n < |v.inodes| && base <= |mem|
    ensures CopiedOut(mem, mem, base, v, n, off, 0)
  {
  }

  lemma CopyMore(mem: seq<Byte>, mem': seq<Byte>, base: nat, v: View, n: nat, off: nat, done: nat,
                 amount: nat, block: Block)
    requires CopiedOut(mem, mem', base, v, n, off, done) && base + done + amount <= |mem|
    requires off + done + amount <= MAXOFF && 0 < amount <= BLKSIZE - (off + done) % BLKSIZE
    requires block == var b := Map(v, n, Block512(off + done)); if b == 0 || b >= |v.disk| then ZeroBlock() else v.disk[b]
    ensures var at := (off + done) % BLKSIZE;
      CopiedOut(mem, Patch(mem', base + done, block[at..at + amount]), base, v, n, off, done + amount)
  {
    var at := (off + done) % BLKSIZE;
    var s := Bytes(v, n, off, done);
    assert done == 0 ==> Patch(mem, base, s) == mem;
    BytesMore(v, n, off, done, amount, block);
    PatchMore(mem, base, s, block[at..at + amount]);
  }

  lemma CopyDone(mem: seq<Byte>, mem': seq<Byte>, base: nat, v: View, n: nat, off: nat, count: nat)
    requires Shape(v) && n < |v.inodes| && v.inodes[n].size <= MAXOFF
    requires CopiedOut(mem, mem', base, v, n, off, Readable(v.inodes[n].size, off, count))
    ensures var k := Readable(v.inodes[n].size, off, count);
      mem' == Patch(mem, base, if k == 0 then [] else Content(v, n)[off..off + k])
  {
    var k := Readable(v.inodes[n].size, off, count);
    if k > 0 {
      assert Bytes(v, n, off, k) == Content(v, n)[off..off + k];
    } else {
      assert mem == Patch(mem, base, []);
    }
  }

  /** readi, F_REG and F_DIR: copy what lies between the offset and the end of the file, at most count
      bytes of it, and advance.  The file system is not touched. */
  method Readi(fs: Fs, n: nat, u: Udata)
    requires fs.Valid() && n < |fs.inodes| && fs.inodes[n].size <= MAXOFF
    requires 0 <= u.count && u.base + u.count <= |u.mem|
    modifies fs, fs.st, fs.st.sfree, u
    ensures fs.Valid() && fs.Now() == old(fs.Now())
    ensures u.offset <= old(u.offset) + old(u.count) && (u.offset < old(u.offset) + old(u.count) ==> u.offset >= fs.inodes[n].size)
    ensures old(u.offset) >= fs.inodes[n].size ==> u.offset == old(u.offset)
    ensures
      var off, k := old(u.offset), Readable(fs.inodes[n].size, old(u.offset), old(u.count));
      && u.mem == Patch(old(u.mem), old(u.base), if k == 0 then [] else Content(fs.Now(), n)[off..off + k])
      && u.base == old(u.base) + k && u.offset == off + k && u.error == old(u.error)
      && u.count == if k == 0 && u.error != 0 then -1 else k
  {
    hide Holds, Distinct, InRange, SlotsOk, EntriesOk, BackOk, FreeOk, Remap, Map, Missing, Bytes, Content, ZeroBlock,
      CopiedOut;
    var size := fs.inodes[n].size;
    ghost var v, off, base, mem, count := fs.Now(), u.offset, u.base, u.mem, u.count;
    if size <= u.offset {
      u.count := 0;
    } else {
      u.count := Min(u.count, size - u.offset);
    }
    ghost var k := u.count;
    CopyStart(mem, base, v, n, off);
    var toread := u.count;
    while toread > 0
      invariant 0 <= toread <= k && u.count == k && fs.Valid() && fs.Now() == v
      invariant u.offset == off + k - toread && u.base == base + k - toread && u.error == old(u.error)
      invariant |u.mem| == |mem| && CopiedOut(mem, u.mem, base, v, n, off, k - toread)
    {
      assert u.offset == off + (k - toread);
      var amount := Min(toread, BLKSIZE - u.offset % BLKSIZE);
      var pblk := fs.Bmap(n, Block512(u.offset), true);
      Readable512(v, n, Block512(u.offset));
      // zerobuf for a hole, bread otherwise
      var block := if pblk == NULLBLK then ZeroBlock() else fs.st.disk[pblk];
      var at := u.offset % BLKSIZE;
      CopyMore(mem, u.mem, base, v, n, off, k - toread, amount, block);
      u.mem := Patch(u.mem, u.base, block[at..at + amount]);
      u.base := u.base + amount;
      u.offset := u.offset + amount;
      toread := toread - amount;
    }
    CopyDone(mem, u.mem, base, v, n, off, count);
    u.count := u.count - toread;
    if u.count == 0 && u.error != 0 {
      u.count := -1;
    }
  }

  /** A mapped block is on the device, so its number is not NULLBLK. */
  lemma Readable512(v: View, n: nat, bn: Word)
    requires Owns(v) && n < |v.inodes|
    ensures Map(v, n, bn) < |v.disk| <= NULLBLK
  {
    if Map(v, n, bn) != 0 {
      NodeRole(v, n, bn, 3);
    }
  }

  /** The body of writei's loop: bmap, bread, ugetblk, bfree.  It fails exactly when the blocks that are
      missing on the way to this one outnumber the free blocks. */
  method WriteBlock(fs: Fs, n: nat, at: nat, piece: seq<Byte>) returns (ok: bool)
    requires fs.Valid() && n < |fs.inodes| && at < MAXOFF && 0 < |piece| <= BLKSIZE - at % BLKSIZE
    modifies fs, fs.st, fs.st.sfree
    ensures fs.Valid()
    ensures ok <==> old(Missing(fs.Now(), n, Block512(at))) <= old(|fs.st.stack|)
    ensures Wrote(old(fs.Now()), fs.Now(), n, at, if ok then piece else [])
    ensures fs.inodes[n].size == old(fs.inodes[n].size)
    ensures ok ==> |fs.st.stack| == old(|fs.st.stack|) - old(Missing(fs.Now(), n, Block512(at)))
    ensures !ok ==> fs.st.stack == [] && Map(fs.Now(), n, Block512(at)) == 0
    ensures |fs.inodes| == old(|fs.inodes|)
  {
    hide Holds, Distinct, InRange, SlotsOk, EntriesOk, BackOk, FreeOk, Map, Missing, Wrote, ZeroBlock;
    ghost var v := fs.Now();
    MissingMap(v, n, Block512(at));
    var pblk := fs.Bmap(n, Block512(at), false);
    ghost var v1 := fs.Now();
    if pblk == NULLBLK {
      WroteNothing(v, v1, n, Block512(at), at);
      return false;
    }
    Readable512(v1, n, Block512(at));
    // a whole block is not read before it is overwritten
    var buf: Block := *;
    if |piece| != BLKSIZE {
      buf := fs.st.disk[pblk];
    }
    buf := PutBytes(buf, at % BLKSIZE, piece);
    assert buf == PutBytes(v1.disk[pblk], at % BLKSIZE, piece);
    WrotePiece(v, v1, n, at, piece, pblk, buf);
    StoreOwns(v1, n, Block512(at), buf);
    MountedFrame(fs.st.isize, fs.st.fsize, fs.st.disk, fs.st.nfree, fs.st.sfree[..], fs.st.tfree, fs.st.stack, pblk, buf);
    fs.st.disk := fs.st.disk[pblk := buf];
    ok := true;
  }

  lemma MissingMap(v: View, n: nat, bn: Word)
    requires Shape(v) && n < |v.inodes|
    ensures Missing(v, n, bn) == 0 <==> Map(v, n, bn) != 0
  {
  }

  /** Why a write stopped short. */
  ghost predicate Stopped(v: View, n: nat, at: nat, error: nat) {
    && Shape(v) && n < |v.inodes|
    && (at >= MAXOFF ==> error == EFBIG)
    && (at < MAXOFF ==> error == ENOSPC && v.free == [] && Map(v, n, Block512(at)) == 0)
  }

  /** writei's loop: towrite is what is left at the end. */
  method WriteBlocks(fs: Fs, n: nat, u: Udata) returns (towrite: nat)
    requires fs.Valid() && n < |fs.inodes|
    requires 0 <= u.count && u.base + u.count <= |u.mem|
    modifies fs, fs.st, fs.st.sfree, u`base, u`offset, u`error
    ensures fs.Valid() && |fs.inodes| == old(|fs.inodes|) && fs.inodes[n].size == old(fs.inodes[n].size)
    ensures towrite <= u.count && u.base == old(u.base) + u.count - towrite && u.offset == old(u.offset) + u.count - towrite
    ensures Wrote(old(fs.Now()), fs.Now(), n, old(u.offset), u.mem[old(u.base)..u.base])
    ensures if towrite == 0 then u.error == old(u.error) else Stopped(fs.Now(), n, u.offset, u.error)
    ensures old(u.offset) <= MAXOFF ==> u.offset <= MAXOFF
    ensures 0 < towrite < u.count ==> u.offset % BLKSIZE == 0
  {
    hide Holds, Distinct, InRange, SlotsOk, EntriesOk, BackOk, FreeOk, Map, Missing, Wrote;
    ghost var v, off, base, size, mem := fs.Now(), u.offset, u.base, fs.inodes[n].size, u.mem;
    WroteRefl(v, n, off);
    assert mem[base..base] == [];
    towrite := u.count;
    while towrite > 0
      invariant 0 <= towrite <= u.count && u.error == old(u.error)
      invariant off <= MAXOFF ==> u.offset <= MAXOFF
      invariant 0 < towrite < u.count ==> u.offset % BLKSIZE == 0
      invariant u.offset == off + u.count - towrite && u.base == base + u.count - towrite
      invariant fs.Valid() && Wrote(v, fs.Now(), n, off, mem[base..u.base])
      invariant |fs.inodes| == |v.inodes| && fs.inodes[n].size == size
    {
      var amount := Min(towrite, BLKSIZE - u.offset % BLKSIZE);
      if u.offset >= MAXOFF {
        u.error := EFBIG;
        break;
      }
      ghost var v1, done := fs.Now(), mem[base..u.base];
      var piece := u.mem[u.base..u.base + amount];
      var ok := WriteBlock(fs, n, u.offset, piece);
      WroteTrans(v, v1, fs.Now(), n, off, done, if ok then piece else []);
      assert done + [] == done && done + piece == mem[base..u.base + amount];
      if !ok {
        u.error := ENOSPC;
        break;
      }
      u.base := u.base + amount;
      u.offset := u.offset + amount;
      towrite := towrite - amount;
    }
  }

  /** writei, F_REG and F_DIR: write up to count bytes at the offset and advance.  A short write means
      that the file would get too big, or that the device is full and the next byte has no block.  The
      size grows to the offset reached, even when nothing was written. */
  method Writei(fs: Fs, n: nat, u: Udata)
    requires fs.Valid() && n < |fs.inodes|
    requires 0 <= u.count && u.base + u.count <= |u.mem|
    modifies fs, fs.st, fs.st.sfree, u
    ensures fs.Valid() && |fs.inodes| == old(|fs.inodes|)
    ensures u.mem == old(u.mem) && old(u.base) <= u.base <= old(u.base) + old(u.count)
    ensures
      var off, base, w, size := old(u.offset), old(u.base), u.base - old(u.base), old(fs.inodes[n].size);
      && u.offset == off + w
      && u.count == (if w == 0 && u.error != 0 then -1 else w)
      && Wrote(old(fs.Now()), fs.Now(), n, off, u.mem[base..base + w])
      && fs.inodes[n].size == (if off + w > size then off + w else size)
      && (size <= MAXOFF ==> (fs.inodes[n].size <= MAXOFF <==> off <= MAXOFF))
      && (0 < w < old(u.count) ==> u.offset % BLKSIZE == 0)
      && if w == old(u.count) then u.error == old(u.error) else Stopped(fs.Now(), n, u.offset, u.error)
  {
    hide Holds, Distinct, InRange, SlotsOk, EntriesOk, BackOk, FreeOk, Map, Missing, Wrote;
    ghost var v, off, base := fs.Now(), u.offset, u.base;
    var towrite := WriteBlocks(fs, n, u);
    if u.offset > fs.inodes[n].size {
      ghost var v2, data := fs.Now(), u.mem[base..u.base];
      ResizedOwns(v2, n, u.offset, off + |data|);
      WroteTrans(v, v2, Resized(v2, n, u.offset), n, off, data, []);
      ResizedMap(v2, n, u.offset, u.offset);
      assert data + [] == data;
      fs.inodes := fs.inodes[n := fs.inodes[n].(size := u.offset)];
    }
    u.count := u.count - towrite;
    if u.count == 0 && u.error != 0 {
      u.count := -1;
    }
  }

  // ---------------------------------------------------------------- truncation, seen on the files

  /** f_trunc empties one file and leaves what every other file reads as. */
  lemma TruncContent(v: View, n: nat, order: seq<Word>, disk': seq<Block>, m: nat, o: nat)
    requires Released(v, n, order, disk') && m < |v.inodes| && o < MAXOFF
    ensures var v' := Truncated(v, n, order, disk');
      Shape(v') && ByteAt(v', m, o) == if m == n then 0 else ByteAt(v, m, o)
  {
    TruncFree(v, n, order, disk');
    if m != n {
      var bm := Block512(o);
      NodeKept(v, n, order, disk', m, bm, 1);
      NodeKept(v, n, order, disk', m, bm, 2);
      NodeKept(v, n, order, disk', m, bm, 3);
    }
  }

  lemma TruncFile(v: View, n: nat, order: seq<Word>, disk': seq<Block>)
    requires Released(v, n, order, disk')
    ensures IsFile(Truncated(v, n, order, disk'), n, [])
    ensures OthersKept(v, Truncated(v, n, order, disk'), n)
  {
    TruncFree(v, n, order, disk');
    var v' := Truncated(v, n, order, disk');
    forall m: nat, o: nat | m < |v.inodes| && o < MAXOFF
      ensures ByteAt(v', m, o) == if m == n then 0 else ByteAt(v, m, o)
    {
      TruncContent(v, n, order, disk', m, o);
    }
  }

  /** The blocks on the way to a block of another file are not among those freed. */
  lemma NodeKept(v: View, n: nat, order: seq<Word>, disk': seq<Block>, m: nat, bm: Word, j: nat)
    requires Released(v, n, order, disk') && m < |v.inodes| && m != n
    ensures OnWalk(bm, j) && Node(v, m, bm, j) != 0 ==>
      Node(v, m, bm, j) < |v.disk| && disk'[Node(v, m, bm, j)] == v.disk[Node(v, m, bm, j)]
    decreases j
  {
    if OnWalk(bm, j) && Node(v, m, bm, j) != 0 {
      OwnedNode(v, m, bm, j);
    }
  }

  lemma {:induction false} OwnedNode(v: View, m: nat, bm: Word, j: nat)
    requires Owns(v) && m < |v.inodes| && OnWalk(bm, j) && Node(v, m, bm, j) != 0
    ensures Node(v, m, bm, j) < |v.disk|
    ensures forall n: nat :: OwnedBy(v, Node(v, m, bm, j), n) <==> n == m
    decreases j
  {
    hide OwnedBy;
    NodeRole(v, m, bm, j);
    OwnerExists(v, Node(v, m, bm, j));
    if NodeCell(v, m, bm, j).Entry? {
      OwnedNode(v, m, bm, j - 1);
    }
  }
}
