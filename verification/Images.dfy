/** What is on a device image: the inode table, and the free lists that mkfs and fsck build, which must
    be the ones the kernel expects (Standalone/mkfs.c, Standalone/fsck.c). */
module Images {
  import opened Blocks
  import opened FreeList
  import opened Ownership
  import opened BlockMap
  import opened Truncate
  import opened Files
  import opened Directories

  const ROOTINODE: nat := 1

  /** i_mode's file type bits. */
  function ModeOf(w: Word): Mode {
    var t := w / 4096;
    if t == 8 then Reg else if t == 4 then Dir else if t == 1 then Pipe else Other
  }

  /** Word w of inode n: eight inodes of 32 words to a block, from block 2 on. */
  function InodeWord(disk: seq<Block>, n: nat, w: nat): Word
    requires w < 32 && 2 + n / 8 < |disk|
  {
    WordAt(disk[2 + n / 8], 32 * (n % 8) + w)
  }

  /** An inode as it is on the device: mode, size and the twenty block numbers. */
  function ReadInode(disk: seq<Block>, n: nat): (ip: Inode)
    requires 2 + n / 8 < |disk|
    ensures |ip.addr| == SLOTS
  {
    var mode := ModeOf(InodeWord(disk, n, 0));
    var lo: int, hi: int := InodeWord(disk, n, 4), InodeWord(disk, n, 5);
    Inode(mode,
          if mode == Other then seq(SLOTS, _ => 0)
          else seq(SLOTS, k requires 0 <= k < SLOTS => InodeWord(disk, n, 12 + k)),
          lo + 65536 * hi)
  }

  function InodeTable(disk: seq<Block>, isize: nat): (t: seq<Inode>)
    requires 2 <= isize <= |disk|
    ensures |t| == 8 * (isize - 2)
  {
    seq(8 * (isize - 2), n requires 0 <= n < 8 * (isize - 2) => ReadInode(disk, n))
  }

  /** The numbers hi-1 down to lo. */
  function Descending(hi: nat, lo: nat): (s: seq<Word>)
    requires hi < 65536
    ensures |s| == if hi < lo then 0 else hi - lo
    ensures forall i :: 0 <= i < |s| ==> s[i] == hi - 1 - i
  {
    if hi <= lo then [] else seq(hi - lo, i requires 0 <= i < hi - lo => hi - 1 - i)
  }

  lemma DescendingMore(hi: nat, lo: nat)
    requires lo < hi < 65536
    ensures Descending(hi, lo) == Descending(hi, lo + 1) + [lo] && Descending(hi, hi) == [] && lo !in Descending(hi, lo + 1)
  {
  }

  /** The start of the inode table: inode 0 is reserved, inode 1 is a directory of size 64 with three
      links whose only block is isize. */
  function RootWord(isize: Word, w: nat): Word {
    if w == 0 then 65535 else if w == 1 then 1
    else if w == 32 then 16895 else if w == 33 then 3 else if w == 36 then 64 else if w == 44 then isize else 0
  }

  function RootInodes(isize: Word): (ws: seq<Word>)
    ensures |ws| == 64
  {
    seq(64, w requires 0 <= w < 64 => RootWord(isize, w))
  }

  /** "." and "..", both naming the root. */
  function RootEntries(): (s: seq<Byte>)
    ensures |s| == 64
  {
    EntryOf(1, [46] + seq(29, _ => 0)) + EntryOf(1, [46, 46] + seq(28, _ => 0))
  }

  /** Byte by byte: inode 1, low byte first, and the name, twice. */
  lemma RootBytes(i: nat)
    requires i < 64
    ensures RootEntries()[i] == if i == 0 || i == 32 then 1 else if i == 2 || i == 34 || i == 35 then 46 else 0
  {
  }

  /** mkfs.  The result is the device and the superblock fields the kernel will mount. */
  method Mkfs(fsize: nat, isize: nat) returns (disk: seq<Block>, nfree: nat, free: array<Word>, tfree: nat)
    requires 3 <= fsize < 65536 && 2 <= isize < fsize
    ensures fresh(free) && free.Length == TABSIZE && |disk| == fsize
    ensures Mounted(isize, fsize, disk, nfree, free[..], tfree, Descending(fsize, isize + 1))
    ensures isize >= 3 ==> disk[2] == PutWords(ZeroBlock(), RootInodes(isize))
    ensures forall b :: 3 <= b < isize ==> disk[b] == ZeroBlock()
    ensures disk[0] == ZeroBlock() && disk[isize] == PutBytes(ZeroBlock(), 0, RootEntries())
  {
    hide Mounted, Descending, ZeroBlock, RootInodes, RootEntries, LinkCount, LinkTable, PutWords, PutBytes;
    disk := [];
    for j := 0 to fsize
      invariant |disk| == j && forall b :: 0 <= b < j ==> disk[b] == ZeroBlock()
    {
      disk := disk + [ZeroBlock()];
    }
    free := new Word[TABSIZE](_ => 0);
    nfree, tfree := 1, 0;
    MountedEmpty(isize, fsize, disk, free[..]);
    DescendingMore(fsize, fsize - 1);
    var j: Word := fsize - 1;
    while j >= isize + 1
      invariant isize <= j < fsize && |disk| == fsize && free.Length == TABSIZE
      invariant Mounted(isize, fsize, disk, nfree, free[..], tfree, Descending(fsize, j + 1))
      invariant forall b :: 0 <= b <= isize ==> disk[b] == ZeroBlock()
    {
      ghost var a, disk1 := free[..], disk;
      // the write takes 512 bytes from s_nfree on, whatever lies beyond the table
      MountedTop(isize, fsize, disk, nfree, a, tfree, Descending(fsize, j + 1));
      var image: Block := *;
      image := LinkBlock(image, nfree, free[..]);
      MountedPut(isize, fsize, disk, nfree, a, tfree, Descending(fsize, j + 1), j, image);
      if nfree == TABSIZE {
        disk := disk[j := image];
        nfree := 0;
      }
      tfree := tfree + 1;
      free[nfree] := j;
      assert free[..] == a[nfree := j];
      nfree := nfree + 1;
      DescendingMore(fsize, j);
      j := j - 1;
    }
    disk := WriteRoot(isize, fsize, disk, nfree, free[..], tfree);
  }

  /** The inode table, the root directory and the superblock. */
  method WriteRoot(isize: nat, fsize: nat, disk0: seq<Block>, nfree: nat, free: seq<Word>, tfree: nat)
    returns (disk: seq<Block>)
    requires 3 <= fsize < 65536 && 2 <= isize < fsize
    requires Mounted(isize, fsize, disk0, nfree, free, tfree, Descending(fsize, isize + 1))
    requires |disk0| == fsize && forall b :: 0 <= b <= isize ==> disk0[b] == ZeroBlock()
    ensures Mounted(isize, fsize, disk, nfree, free, tfree, Descending(fsize, isize + 1)) && |disk| == fsize
    ensures isize >= 3 ==> disk[2] == PutWords(ZeroBlock(), RootInodes(isize))
    ensures forall b :: 3 <= b < isize ==> disk[b] == ZeroBlock()
    ensures disk[0] == ZeroBlock() && disk[isize] == PutBytes(ZeroBlock(), 0, RootEntries())
  {
    hide Mounted, ZeroBlock, RootInodes, RootEntries, PutWords, PutBytes;
    var s := Descending(fsize, isize + 1);
    disk := Overwrite(isize, fsize, disk0, nfree, free, tfree, s, 2, PutWords(ZeroBlock(), RootInodes(isize)));
    disk := Overwrite(isize, fsize, disk, nfree, free, tfree, s, isize, PutBytes(ZeroBlock(), 0, RootEntries()));
    var super: Block := *;
    disk := Overwrite(isize, fsize, disk, nfree, free, tfree, s, 1, super);
  }

  /** dwrite of a block that is not free. */
  function Overwrite(isize: nat, fsize: nat, disk: seq<Block>, nfree: nat, free: seq<Word>, tfree: nat,
                     ghost s: seq<Word>, b: nat, data: Block): (disk': seq<Block>)
    requires Mounted(isize, fsize, disk, nfree, free, tfree, s) && b < fsize && b !in s
    ensures Mounted(isize, fsize, disk', nfree, free, tfree, s)
    ensures disk' == disk[b := data]
  {
    MountedFrame(isize, fsize, disk, nfree, free, tfree, s, b, data);
    disk[b := data]
  }

  // ---------------------------------------------------------------- the image mkfs leaves

  function RootInode(isize: Word): Inode {
    Inode(Dir, [isize] + seq(19, _ => 0), 64)
  }

  function UnusedInode(): Inode {
    Inode(Other, seq(SLOTS, _ => 0), 0)
  }

  /** Every word of the inode table mkfs leaves. */
  lemma MkfsWord(disk: seq<Block>, isize: Word, n: nat, w: nat)
    requires 3 <= isize <= |disk| && n < 8 * (isize - 2) && w < 32
    requires disk[2] == PutWords(ZeroBlock(), RootInodes(isize)) && forall b :: 3 <= b < isize ==> disk[b] == ZeroBlock()
    ensures InodeWord(disk, n, w) == if n < 2 then RootWord(isize, 32 * n + w) else 0
  {
    var ws := RootInodes(isize);
    if n < 2 {
      assert WordAt(disk[2], 32 * n + w) == ws[32 * n + w];
    } else if n < 8 {
      var at := 2 * (32 * n + w);
      var tail := disk[2][2 * |ws|..];
      assert tail == ZeroBlock()[2 * |ws|..];
      assert disk[2][at] == tail[at - 2 * |ws|] && disk[2][at + 1] == tail[at + 1 - 2 * |ws|];
    } else {
      assert 3 <= 2 + n / 8 < isize;
    }
  }

  /** The inode table mkfs leaves has one directory in it. */
  lemma MkfsInodes(disk: seq<Block>, isize: Word, n: nat)
    requires 3 <= isize <= |disk| && n < 8 * (isize - 2)
    requires disk[2] == PutWords(ZeroBlock(), RootInodes(isize)) && forall b :: 3 <= b < isize ==> disk[b] == ZeroBlock()
    ensures ReadInode(disk, n) == if n == ROOTINODE then RootInode(isize) else UnusedInode()
  {
    hide PutWords, ZeroBlock, RootInodes, InodeWord;
    MkfsWord(disk, isize, n, 0);
    MkfsWord(disk, isize, n, 4);
    MkfsWord(disk, isize, n, 5);
    if n == ROOTINODE {
      var a := ReadInode(disk, n).addr;
      forall k | 0 <= k < SLOTS
        ensures a[k] == RootInode(isize).addr[k]
      {
        MkfsWord(disk, isize, n, 12 + k);
      }
      assert a == RootInode(isize).addr;
    }
  }

  /** On a fresh image the root directory owns block isize and every block after it is free. */
  function FreshRoles(isize: Word, fsize: nat): seq<Role>
    requires isize < fsize
  {
    seq(fsize, b requires 0 <= b < fsize =>
      if b < isize then Reserved else if b == isize then Owned(Slot(ROOTINODE, 0), 0) else Free)
  }

  lemma MkfsOwns(disk: seq<Block>, isize: Word)
    requires 3 <= isize < |disk| < 65536
    requires disk[2] == PutWords(ZeroBlock(), RootInodes(isize)) && forall b :: 3 <= b < isize ==> disk[b] == ZeroBlock()
    ensures Owns(View(isize, disk, InodeTable(disk, isize), Descending(|disk|, isize + 1), FreshRoles(isize, |disk|)))
  {
    hide PutWords, ZeroBlock, RootInodes, ReadInode, Owns, Descending, FreshRoles;
    var t := InodeTable(disk, isize);
    forall n | 0 <= n < |t|
      ensures t[n] == if n == ROOTINODE then RootInode(isize) else UnusedInode()
    {
      MkfsInodes(disk, isize, n);
    }
    FreshOwns(View(isize, disk, t, Descending(|disk|, isize + 1), FreshRoles(isize, |disk|)));
  }

  /** One directory with one block, and all other blocks free. */
  lemma FreshOwns(v: View)
    requires 3 <= v.isize < |v.disk| < 65536 && ROOTINODE < |v.inodes|
    requires forall n :: 0 <= n < |v.inodes| ==> v.inodes[n] == if n == ROOTINODE then RootInode(v.isize) else UnusedInode()
    requires v.free == Descending(|v.disk|, v.isize + 1) && v.role == FreshRoles(v.isize, |v.disk|)
    ensures Owns(v)
  {
    assert Shape(v);
    assert FreeOk(v) by {
      forall b: nat | b < |v.role|
        ensures v.role[b].Free? <==> b in v.free
      {
        if v.isize + 1 <= b {
          assert v.free[|v.disk| - 1 - b] == b;
        }
      }
    }
    assert SlotsOk(v) by {
      forall n: nat, k: nat | n < |v.inodes| && k < SLOTS && v.inodes[n].addr[k] != 0
        ensures Is(v.role, v.inodes[n].addr[k], Slot(n, k), SlotLevel(k))
      {
        assert n == ROOTINODE && k == 0;
      }
    }
  }

  /** The root directory holds "." and "..", and nothing else. */
  lemma MkfsRoot(v: View)
    requires 3 <= v.isize < 65536 && Shape(v) && ROOTINODE < |v.inodes| && v.inodes[ROOTINODE] == RootInode(v.isize)
    requires v.disk[v.isize] == PutBytes(ZeroBlock(), 0, RootEntries())
    ensures IsDir(v, ROOTINODE, RootEntries())
  {
    var s := RootEntries();
    forall o: nat | o < MAXOFF
      ensures ByteAt(v, ROOTINODE, o) == if o < 64 then s[o] else 0
    {
      if o >= BLKSIZE {
        assert Block512(o) > 0;
      }
    }
  }

  /** mkfs, then mount: every invariant of the block layer holds, the root is a directory with its two
      entries, and the free list is every block after the root's, lowest on top.  With two blocks of
      inodes before the data area there is no room for the inode table, and no root. */
  method MkfsAndMount(fsize: nat, isize: Word) returns (fs: Fs)
    requires 3 <= fsize < 65536 && 2 <= isize < fsize
    ensures fs.st.isize == isize && fs.st.fsize == fsize
    ensures fresh(fs) && fresh(fs.st) && fresh(fs.st.sfree)
    ensures fs.st.Valid() && fs.st.stack == Descending(fsize, isize + 1) && |fs.inodes| == 8 * (isize - 2)
    ensures (ROOTINODE < |fs.inodes| && fs.inodes[ROOTINODE].mode == Dir) <==> isize >= 3
    ensures isize >= 3 ==>
      && fs.Valid() && IsDir(fs.Now(), ROOTINODE, RootEntries())
      && forall n :: 0 <= n < |fs.inodes| && n != ROOTINODE ==> fs.inodes[n] == UnusedInode()
  {
    hide Holds, Distinct, InRange, Owns, IsDir, RootEntries, RootInodes;
    var disk, nfree, free, tfree := Mkfs(fsize, isize);
    var st := new Store(isize, fsize, disk, nfree, free[..], tfree, Descending(fsize, isize + 1));
    ghost var role := FreshRoles(isize, fsize);
    if isize >= 3 {
      MkfsOwns(disk, isize);
      forall n | 0 <= n < 8 * (isize - 2)
        ensures InodeTable(disk, isize)[n] == if n == ROOTINODE then RootInode(isize) else UnusedInode()
      {
        MkfsInodes(disk, isize, n);
      }
    }
    fs := new Fs(st, InodeTable(disk, isize), role);
    if isize >= 3 {
      MkfsShape(fs.Now());
      MkfsRoot(fs.Now());
    }
  }

  lemma MkfsShape(v: View)
    requires Owns(v)
    ensures Shape(v)
  {
  }

  /** Operations of the block layer, in any order and number. */
  datatype BlockOp = MapBlock(n: nat, bn: Word, rwflg: bool) | Truncate(n: nat, readOnly: bool)

  /** What one operation does to the device: a mapping takes exactly the missing blocks off the stack, or all
      there are, and maps nothing else; a truncation frees the file's blocks and nothing else. */
  ghost predicate Step(v: View, op: BlockOp, v': View) {
    Owns(v) && Owns(v') &&
    match op
    case MapBlock(n, bn, rwflg) =>
      if n >= |v.inodes| || rwflg || Map(v, n, bn) != 0 then v' == v
      else if |v.free| < Missing(v, n, bn) then v'.free == [] && Remap(v, v', n, bn, 0)
      else
        && v'.free == v.free[..|v.free| - Missing(v, n, bn)]
        && |v'.inodes| == |v.inodes|
        && var b := Map(v', n, bn); b in v.free && b < |v'.disk| && v'.disk[b] == ZeroBlock() && Remap(v, v', n, bn, b)
    case Truncate(n, readOnly) =>
      if n >= |v.inodes| || readOnly then v' == v
      else
        var order := TruncOrder(v.disk, v.inodes[n].addr);
        Same(v.disk, v'.disk, order) && v' == Truncated(v, n, order, v'.disk)
  }

  /** Every block past the inode area is on the free stack, once, or owned, and tfree is the number of the free. */
  ghost predicate Accounted(v: View, tfree: int) {
    && Owns(v) && Distinct(v.free) && tfree == |v.free|
    && forall b: nat :: v.isize <= b < |v.disk| ==>
         (b in v.free <==> !exists n: nat :: n < |v.inodes| && OwnedBy(v, b, n))
  }

  method Apply(fs: Fs, op: BlockOp)
    requires fs.Valid()
    modifies fs, fs.st, fs.st.sfree
    ensures fs.Valid() && Step(old(fs.Now()), op, fs.Now())
  {
    hide Holds, Distinct, InRange, SlotsOk, EntriesOk, BackOk, FreeOk, OwnedBy, Remap, Same, TruncOrder, Map, Missing;
    match op {
      case MapBlock(n, bn, rwflg) =>
        if n < |fs.inodes| {
          ghost var v := fs.Now();
          MissingMap(v, n, bn);
          var nb := fs.Bmap(n, bn, rwflg);
          Readable512(fs.Now(), n, bn);
        }
      case Truncate(n, readOnly) =>
        if n < |fs.inodes| {
          var ok := Trunc(fs, n, readOnly);
        }
    }
  }

  /** From a fresh image, whatever blocks are mapped and whatever files are truncated: each operation does
      exactly its step, and in every state on the way every block past the inode area is free exactly once or
      owned exactly once, and s_tfree counts the free ones. */
  method Run(fsize: nat, isize: Word, ops: seq<BlockOp>) returns (fs: Fs, ghost states: seq<View>, ghost counts: seq<int>)
    requires 3 <= isize < fsize < 65536
    ensures fs.Valid() && |states| == |counts| == |ops| + 1
    ensures forall i :: 0 <= i <= |ops| ==> Accounted(states[i], counts[i]) && states[i].isize == isize && |states[i].disk| == fsize
    ensures forall i :: 0 <= i < |ops| ==> Step(states[i], ops[i], states[i + 1])
    ensures states[|ops|] == fs.Now() && counts[|ops|] == fs.st.tfree
    ensures states[0].free == Descending(fsize, isize + 1) && IsDir(states[0], ROOTINODE, RootEntries())
    ensures forall n :: 0 <= n < |states[0].inodes| && n != ROOTINODE ==> states[0].inodes[n] == UnusedInode()
  {
    hide Holds, Distinct, InRange, Owns, IsDir, Step, Accounted;
    fs := MkfsAndMount(fsize, isize);
    states, counts := [fs.Now()], [fs.st.tfree];
    Consequences(fs);
    for i := 0 to |ops|
      invariant fs.Valid() && fresh(fs) && fresh(fs.st) && fresh(fs.st.sfree)
      invariant fs.st.isize == isize && fs.st.fsize == fsize
      invariant |states| == |counts| == i + 1 && states[i] == fs.Now() && counts[i] == fs.st.tfree
      invariant forall j :: 0 <= j <= i ==> Accounted(states[j], counts[j])
      invariant forall j :: 0 <= j <= i ==> states[j].isize == isize && |states[j].disk| == fsize
      invariant forall j :: 0 <= j < i ==> Step(states[j], ops[j], states[j + 1])
      invariant states[0].free == Descending(fsize, isize + 1) && IsDir(states[0], ROOTINODE, RootEntries())
      invariant forall n :: 0 <= n < |states[0].inodes| && n != ROOTINODE ==> states[0].inodes[n] == UnusedInode()
    {
      Apply(fs, ops[i]);
      Consequences(fs);
      states, counts := states + [fs.Now()], counts + [fs.st.tfree];
    }
  }

  lemma Consequences(fs: Fs)
    requires fs.Valid()
    ensures Accounted(fs.Now(), fs.st.tfree) && Owns(fs.Now()) && |fs.st.disk| == fs.st.fsize
  {
    var v := fs.Now();
    forall b: nat | v.isize <= b < |v.disk|
      ensures b in v.free <==> !exists n: nat :: n < |v.inodes| && OwnedBy(v, b, n)
    {
      Partition(v, b);
    }
  }
}
