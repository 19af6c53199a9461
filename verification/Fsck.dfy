/** fsck passes 1 and 2: mark the blocks that the inodes use, then rebuild the free list from the rest
    (Standalone/fsck.c).  On a consistent image that pass 1 gets through, the result is the kernel's own free set. */
module Fsck {
  import opened Blocks
  import opened FreeList
  import opened Ownership
  import opened BlockMap
  import opened Truncate
  import opened Files

  /** Every block number getblkno may follow is on the device. */
  predicate OnDevice(disk: seq<Block>, addr: seq<Word>) {
    && |addr| == SLOTS && |disk| > 0
    && (forall k :: 0 <= k < SLOTS ==> addr[k] < |disk|)
    && (addr[19] != 0 ==> forall i: nat :: i < PTRS ==> WordAt(disk[addr[19]], i) < |disk|)
  }

  /** getblkno: the block number of block num of a file, read without any check.  A missing level 1
      block is read as block 0. */
  function GetBlkNo(disk: seq<Block>, addr: seq<Word>, num: Word): Word
    requires OnDevice(disk, addr)
  {
    if num < DIRECT then addr[num]
    else if num < PTRS + DIRECT then
      if addr[18] == 0 then 0 else WordAt(disk[addr[18]], num - DIRECT)
    else if addr[19] == 0 then 0
    else WordAt(disk[WordAt(disk[addr[19]], Hi(num))], Lo(num))
  }

  /** A consistent image: the kernel's ownership invariant, an inode table that fills its blocks, only regular
      files and directories in use, and block 0 blank. */
  ghost predicate Consistent(v: View) {
    && Owns(v) && |v.inodes| == 8 * (v.isize - 2)
    && (forall n :: 0 <= n < |v.inodes| ==> v.inodes[n].mode != Pipe)
    && (forall n :: 0 <= n < |v.inodes| && v.inodes[n].mode == Other ==> v.inodes[n].addr == seq(SLOTS, _ => 0))
    && v.inodes != [] && v.inodes[0].addr == seq(SLOTS, _ => 0)
    && v.disk[0] == ZeroBlock()
  }

  /** No block of file n lies past its end, and indirect blocks only exist past the direct range. */
  ghost predicate NoneBeyond(v: View, n: nat)
    requires Shape(v) && n < |v.inodes|
  {
    && (v.inodes[n].addr[18] != 0 || v.inodes[n].addr[19] != 0 ==> v.inodes[n].size >= DIRECT * BLKSIZE)
    && (forall b: nat :: OwnedBy(v, b, n) && v.role[b].level == 0 ==>
          exists bn: Word :: bn <= v.inodes[n].size / BLKSIZE && Map(v, n, bn) == b)
  }

  // ---------------------------------------------------------------- whether pass 1 ends

  /** Where pass 1 is: at an inode, at a block of an inode, or past the last inode. */
  datatype Scan = AtInode(n: Word) | AtBlock(n: Word, bno: Word) | Done

  predicate Scanned(ip: Inode) {
    ip.mode == Reg || ip.mode == Dir
  }

  /** One turn of the two loops of pass 1.  Their counters have 16 bits and wrap; the bounds do not. */
  function Next(inodes: seq<Inode>, s: Scan): (s': Scan)
    requires s.AtBlock? ==> s.n < |inodes|
    ensures s'.AtBlock? ==> s'.n < |inodes|
  {
    match s
    case AtInode(n) =>
      if n >= |inodes| then Done else if Scanned(inodes[n]) then AtBlock(n, 0) else AtInode((n + 1) % 65536)
    case AtBlock(n, bno) =>
      if bno > inodes[n].size / BLKSIZE then AtInode((n + 1) % 65536) else AtBlock(n, (bno + 1) % 65536)
    case Done => Done
  }

  function After(inodes: seq<Inode>, s: Scan, k: nat): Scan
    requires s.AtBlock? ==> s.n < |inodes|
    decreases k
  {
    if k == 0 then s else After(inodes, Next(inodes, s), k - 1)
  }

  /** From s on, pass 1 gets past the last inode. */
  ghost predicate Ends(inodes: seq<Inode>, s: Scan)
    requires s.AtBlock? ==> s.n < |inodes|
  {
    exists k: nat :: After(inodes, s, k) == Done
  }

  /** The counters can get past their bounds. */
  predicate CountersFit(inodes: seq<Inode>) {
    |inodes| <= 65535 && forall n :: 1 <= n < |inodes| && inodes[n].mode in {Reg, Dir} ==> inodes[n].size < 65535 * BLKSIZE
  }

  lemma EndsBefore(inodes: seq<Inode>, s: Scan)
    requires (s.AtBlock? ==> s.n < |inodes|) && Ends(inodes, Next(inodes, s))
    ensures Ends(inodes, s)
  {
    var k: nat :| After(inodes, Next(inodes, s), k) == Done;
    assert After(inodes, s, k + 1) == Done;
  }

  lemma {:induction false} BlocksEnd(inodes: seq<Inode>, n: Word, bno: Word)
    requires n < |inodes| && inodes[n].size < 65535 * BLKSIZE && bno <= inodes[n].size / BLKSIZE + 1
    requires Ends(inodes, AtInode((n + 1) % 65536))
    ensures Ends(inodes, AtBlock(n, bno))
    decreases inodes[n].size / BLKSIZE + 1 - bno
  {
    if bno <= inodes[n].size / BLKSIZE {
      BlocksEnd(inodes, n, bno + 1);
    }
    EndsBefore(inodes, AtBlock(n, bno));
  }

  lemma {:induction false} InodesEnd(inodes: seq<Inode>, n: Word)
    requires CountersFit(inodes) && 1 <= n && n <= |inodes|
    ensures Ends(inodes, AtInode(n))
    decreases |inodes| - n
  {
    if n < |inodes| {
      InodesEnd(inodes, n + 1);
      if Scanned(inodes[n]) {
        BlocksEnd(inodes, n, 0);
      }
    } else {
      assert After(inodes, Done, 0) == Done;
    }
    EndsBefore(inodes, AtInode(n));
  }

  /** A file whose last block counter is the last 16-bit number is never left, and a table with more inodes
      than that has no last one. */
  lemma {:induction false} Stuck(inodes: seq<Inode>, s: Scan, m: nat, k: nat)
    requires s != Done && (s.AtBlock? ==> s.n < |inodes|)
    requires |inodes| >= 65536 || (m < |inodes| && Scanned(inodes[m]) && inodes[m].size >= 65535 * BLKSIZE && s.n <= m)
    ensures After(inodes, s, k) != Done
    decreases k
  {
    if k > 0 {
      Stuck(inodes, Next(inodes, s), m, k - 1);
    }
  }

  /** Pass 1 ends if and only if there are at most 65535 inodes and every regular file and directory is shorter
      than 65535 blocks. */
  lemma EndsExactly(inodes: seq<Inode>)
    ensures Ends(inodes, AtInode(1)) <==> CountersFit(inodes)
  {
    if CountersFit(inodes) && |inodes| >= 1 {
      InodesEnd(inodes, 1);
    } else if inodes == [] {
      assert After(inodes, Done, 0) == Done;
      EndsBefore(inodes, AtInode(1));
    } else if Ends(inodes, AtInode(1)) {
      var k: nat :| After(inodes, AtInode(1), k) == Done;
      if |inodes| >= 65536 {
        Stuck(inodes, AtInode(1), 0, k);
      } else {
        var m :| 1 <= m < |inodes| && Scanned(inodes[m]) && inodes[m].size >= 65535 * BLKSIZE;
        Stuck(inodes, AtInode(1), m, k);
      }
    }
  }

  /** Such an image: a file of one byte behind a seek to 65535 * 512, which the kernel allows. */
  lemma NeverEnds(inodes: seq<Inode>, n: nat)
    requires 1 <= n < |inodes| && inodes[n].mode == Reg && inodes[n].size == 65535 * BLKSIZE + 1
    ensures inodes[n].size <= MAXOFF && !Ends(inodes, AtInode(1))
  {
    EndsExactly(inodes);
  }

  // ---------------------------------------------------------------- marking

  lemma PointersInRange(v: View, n: nat)
    requires Owns(v) && n < |v.inodes|
    ensures OnDevice(v.disk, v.inodes[n].addr)
    ensures forall k :: 0 <= k < SLOTS && v.inodes[n].addr[k] != 0 ==>
      v.isize <= v.inodes[n].addr[k] && v.role[v.inodes[n].addr[k]].Owned?
    ensures var p := v.inodes[n].addr[19]; p != 0 ==> forall i: nat :: i < PTRS && WordAt(v.disk[p], i) != 0 ==>
      v.isize <= WordAt(v.disk[p], i) && v.role[WordAt(v.disk[p], i)].Owned?
  {
    var a := v.inodes[n].addr;
    forall k: nat | k < SLOTS
      ensures a[k] < |v.disk| && (a[k] != 0 ==> v.isize <= a[k] && v.role[a[k]].Owned?)
    {
      assert a[k] != 0 ==> Is(v.role, a[k], Slot(n, k), SlotLevel(k));
    }
    if a[19] != 0 {
      assert Is(v.role, a[19], Slot(n, 19), 2);
      forall i: nat | i < PTRS
        ensures var w := WordAt(v.disk[a[19]], i); w < |v.disk| && (w != 0 ==> v.isize <= w && v.role[w].Owned?)
      {
        var w := WordAt(v.disk[a[19]], i);
        assert w != 0 ==> Is(v.role, w, Entry(a[19], i), 1);
      }
    }
  }

  /** On a consistent image fsck's walk and the kernel's bmap agree on every logical block. */
  lemma GetIsMap(v: View, n: nat, num: Word)
    requires Consistent(v) && n < |v.inodes|
    ensures OnDevice(v.disk, v.inodes[n].addr)
    ensures GetBlkNo(v.disk, v.inodes[n].addr, num) == Map(v, n, num) < |v.disk|
    ensures Map(v, n, num) != 0 ==> v.isize <= Map(v, n, num) && v.role[Map(v, n, num)].Owned?
  {
    PointersInRange(v, n);
    if Map(v, n, num) != 0 {
      NodeRole(v, n, num, 3);
    }
  }

  /** Everything pass 1 marks for one file has been marked. */
  ghost predicate FileMarked(v: View, n: nat, bits: seq<bool>)
    requires Shape(v) && n < |v.inodes| && |bits| == |v.disk|
  {
    var a := v.inodes[n].addr;
    && (a[18] != 0 ==> a[18] < |bits| && bits[a[18]])
    && (a[19] != 0 ==> a[19] < |bits| && bits[a[19]] && EntriesMarked(v.disk[a[19]], bits, PTRS))
    && BlocksMarked(v, n, bits, v.inodes[n].size / BLKSIZE + 1)
  }

  ghost predicate EntriesMarked(block: Block, bits: seq<bool>, k: nat) {
    forall i: nat :: i < k && i < PTRS && WordAt(block, i) != 0 ==> WordAt(block, i) < |bits| && bits[WordAt(block, i)]
  }

  ghost predicate BlocksMarked(v: View, n: nat, bits: seq<bool>, k: nat)
    requires Shape(v) && n < |v.inodes|
  {
    forall bn: Word :: bn < k && Map(v, n, bn) != 0 ==> Map(v, n, bn) < |bits| && bits[Map(v, n, bn)]
  }

  /** Only blocks in use are marked. */
  ghost predicate OnlyOwned(v: View, bits: seq<bool>) {
    |bits| == |v.role| && forall b :: 0 <= b < |bits| && bits[b] ==> v.role[b].Owned?
  }

  ghost predicate Grows(bits: seq<bool>, bits': seq<bool>) {
    |bits| == |bits'| && forall b :: 0 <= b < |bits| && bits[b] ==> bits'[b]
  }

  /** A file with no block past its end is marked completely. */
  lemma MarkedAll(v: View, n: nat, bits: seq<bool>, b: nat)
    requires Owns(v) && n < |v.inodes| && |bits| == |v.disk| && FileMarked(v, n, bits) && NoneBeyond(v, n)
    requires OwnedBy(v, b, n)
    ensures b < |bits| && bits[b]
  {
    assert CellOk(v, v.role[b].cell, v.role[b].level) && CellValue(v, v.role[b].cell) == b;
    OwnerExists(v, b);
    if v.role[b].level == 0 {
      var bn: Word :| bn <= v.inodes[n].size / BLKSIZE && Map(v, n, bn) == b;
    } else if v.role[b].cell.Entry? {
      var p := v.role[b].cell.blk;
      assert OwnedBy(v, p, n);
      assert CellOk(v, v.role[p].cell, v.role[p].level) && CellValue(v, v.role[p].cell) == p;
      OwnerExists(v, p);
    }
  }

  /** Pass 1 on one inode in use.  complaint is set where the original would ask whether to repair. */
  method MarkFile(isize: nat, fsize: nat, disk: seq<Block>, ip: Inode, bits0: seq<bool>, ghost v: View, ghost n: nat)
    returns (bits: seq<bool>, complaint: bool)
    requires Consistent(v) && n < |v.inodes| && ip == v.inodes[n] && disk == v.disk
    requires isize == v.isize && fsize == |v.disk| && NoneBeyond(v, n) && ip.size < 65535 * BLKSIZE
    requires OnlyOwned(v, bits0)
    ensures !complaint && OnlyOwned(v, bits) && Grows(bits0, bits) && FileMarked(v, n, bits)
  {
    PointersInRange(v, n);
    bits, complaint := bits0, false;
    var b := 18;
    while b < 20
      invariant 18 <= b <= 20 && !complaint && OnlyOwned(v, bits) && Grows(bits0, bits) && |bits| == fsize
      invariant b > 18 && ip.addr[18] != 0 ==> bits[ip.addr[18]]
      invariant b > 19 && ip.addr[19] != 0 ==> bits[ip.addr[19]]
    {
      if ip.addr[b] != 0 && (ip.addr[b] < isize || ip.addr[b] >= fsize) {
        complaint := true;
      } else if ip.addr[b] != 0 && ip.size < DIRECT * BLKSIZE {
        complaint := true;
      } else if ip.addr[b] != 0 {
        assert Is(v.role, ip.addr[b], Slot(n, b), SlotLevel(b));
        bits := bits[ip.addr[b] := true];
      }
      b := b + 1;
    }
    if ip.addr[19] != 0 {
      var buf := disk[ip.addr[19]];
      bits, complaint := MarkEntries(isize, fsize, buf, bits, ip.addr[19], v, n);
    }
    bits, complaint := MarkBlocks(isize, fsize, disk, ip, bits, complaint, v, n);
  }

  /** The level 1 blocks under a double indirect block. */
  method MarkEntries(isize: nat, fsize: nat, buf: Block, bits0: seq<bool>, p: Word, ghost v: View, ghost n: nat)
    returns (bits: seq<bool>, complaint: bool)
    requires Consistent(v) && n < |v.inodes| && p == v.inodes[n].addr[19] != 0 && p < |v.disk| && buf == v.disk[p]
    requires isize == v.isize && fsize == |v.disk| && OnlyOwned(v, bits0)
    ensures !complaint && OnlyOwned(v, bits) && Grows(bits0, bits) && EntriesMarked(buf, bits, PTRS)
  {
    bits, complaint := bits0, false;
    PointersInRange(v, n);
    assert Is(v.role, p, Slot(n, 19), 2);
    var b := 0;
    while b < 256
      invariant 0 <= b <= 256 && !complaint && OnlyOwned(v, bits) && Grows(bits0, bits) && EntriesMarked(buf, bits, b)
    {
      var w := WordAt(buf, b);
      if w != 0 && (w < isize || w >= fsize) {
        complaint := true;
      } else if w != 0 {
        assert Is(v.role, w, Entry(p, b), 1);
        bits := bits[w := true];
      }
      b := b + 1;
    }
  }

  /** The blocks of the file, up to the one its size falls in. */
  method MarkBlocks(isize: nat, fsize: nat, disk: seq<Block>, ip: Inode, bits0: seq<bool>, complaint0: bool, ghost v: View, ghost n: nat)
    returns (bits: seq<bool>, complaint: bool)
    requires Consistent(v) && n < |v.inodes| && ip == v.inodes[n] && disk == v.disk && ip.size < 65535 * BLKSIZE
    requires isize == v.isize && fsize == |v.disk| && OnlyOwned(v, bits0)
    ensures complaint == complaint0 && OnlyOwned(v, bits) && Grows(bits0, bits)
    ensures BlocksMarked(v, n, bits, ip.size / BLKSIZE + 1)
  {
    bits, complaint := bits0, complaint0;
    var bno: Word := 0;
    while bno <= ip.size / BLKSIZE
      invariant bno <= ip.size / BLKSIZE + 1
      invariant complaint == complaint0 && OnlyOwned(v, bits) && Grows(bits0, bits) && BlocksMarked(v, n, bits, bno)
    {
      GetIsMap(v, n, bno);
      var b := GetBlkNo(disk, ip.addr, bno);
      if b != 0 && (b < isize || b >= fsize) {
        complaint := true;
      } else if b != 0 {
        bits := bits[b := true];
      }
      bno := (bno + 1) % 65536;
    }
  }

  /** An owner names a block in one of its slots. */
  lemma OwnerSlot(v: View, n: nat, b: nat)
    requires Owns(v) && OwnedBy(v, b, n)
    ensures n < |v.inodes| && exists k :: 0 <= k < SLOTS && v.inodes[n].addr[k] != 0
  {
    var r := Top(v, b, 2);
    assert CellOk(v, v.role[r].cell, v.role[r].level) && CellValue(v, v.role[r].cell) == r;
    assert v.inodes[n].addr[v.role[r].cell.k] != 0;
  }

  /** An inode without block numbers owns nothing. */
  lemma OwnsNothing(v: View, n: nat, b: nat)
    requires Owns(v) && n < |v.inodes| && v.inodes[n].addr == seq(SLOTS, _ => 0)
    ensures !OwnedBy(v, b, n)
  {
    if OwnedBy(v, b, n) {
      OwnerSlot(v, n, b);
    }
  }

  /** Pass 1: on a consistent image that it gets through and whose files have no blocks past their ends it asks
      no question about blocks, and marks exactly the blocks in use. */
  method Pass1(isize: nat, fsize: nat, disk: seq<Block>, inodes: seq<Inode>, ghost v: View)
    returns (bits: seq<bool>, complaint: bool)
    requires Consistent(v) && inodes == v.inodes && disk == v.disk && isize == v.isize && fsize == |v.disk|
    requires CountersFit(inodes) && forall n :: 0 <= n < |v.inodes| ==> NoneBeyond(v, n)
    ensures !complaint && |bits| == fsize
    ensures forall b :: 0 <= b < fsize ==> (bits[b] <==> v.role[b].Owned?)
  {
    hide NoneBeyond, SlotsOk, EntriesOk, BackOk, FreeOk, OwnedBy, FileMarked;
    bits, complaint := seq(fsize, _ => false), false;
    var n: Word := 1;
    forall b
      ensures !OwnedBy(v, b, 0)
    {
      OwnsNothing(v, 0, b);
    }
    while n < 8 * (isize - 2)
      invariant 1 <= n <= |inodes| && !complaint && OnlyOwned(v, bits)
      invariant forall m: nat, b: nat :: m < n && OwnedBy(v, b, m) ==> b < |bits| && bits[b]
    {
      if inodes[n].mode == Pipe {
        complaint := true;
      } else if inodes[n].mode != Other {
        var bits0 := bits;
        var asked;
        bits, asked := MarkFile(isize, fsize, disk, inodes[n], bits, v, n);
        complaint := complaint || asked;
        forall b: nat | OwnedBy(v, b, n)
          ensures b < |bits| && bits[b]
        {
          MarkedAll(v, n, bits, b);
        }
      } else {
        forall b: nat
          ensures !OwnedBy(v, b, n)
        {
          OwnsNothing(v, n, b);
        }
      }
      n := (n + 1) % 65536;
    }
    forall b | 0 <= b < fsize && v.role[b].Owned?
      ensures bits[b]
    {
      OwnerExists(v, b);
    }
  }

  /** The blocks lo..hi-1 that are not marked, highest first. */
  function Unmarked(bits: seq<bool>, hi: nat, lo: nat): seq<Word>
    requires lo <= hi <= |bits| <= 65535
    decreases hi - lo
  {
    if lo == hi then [] else
      var s := Unmarked(bits, hi, lo + 1);
      if bits[lo] then s else s + [lo]
  }

  lemma {:induction false} UnmarkedIs(bits: seq<bool>, hi: nat, lo: nat)
    requires lo <= hi <= |bits| <= 65535
    ensures forall x :: x in Unmarked(bits, hi, lo) <==> lo <= x < hi && !bits[x]
    ensures Distinct(Unmarked(bits, hi, lo))
    decreases hi - lo
  {
    if lo < hi {
      UnmarkedIs(bits, hi, lo + 1);
    }
  }

  /** Pass 2: free every block that is not marked, into a fresh free list. */
  method Pass2(isize: nat, fsize: nat, disk0: seq<Block>, bits: seq<bool>)
    returns (disk: seq<Block>, nfree: nat, free: array<Word>, tfree: nat)
    requires 2 <= isize < fsize == |disk0| == |bits| < 65536
    ensures fresh(free) && free.Length == TABSIZE && |disk| == fsize
    ensures Mounted(isize, fsize, disk, nfree, free[..], tfree, Unmarked(bits, fsize, isize))
    ensures forall b :: 0 <= b < fsize && b != 1 && bits[b] ==> disk[b] == disk0[b]
    ensures disk[0] == disk0[0]
  {
    hide Mounted, Distinct, LinkCount, LinkTable;
    disk := disk0;
    free := new Word[TABSIZE](_ => 0);
    nfree, tfree := 1, 0;
    MountedEmpty(isize, fsize, disk, free[..]);
    var j: Word := fsize - 1;
    while j >= isize
      invariant isize - 1 <= j < fsize && |disk| == fsize && free.Length == TABSIZE
      invariant Mounted(isize, fsize, disk, nfree, free[..], tfree, Unmarked(bits, fsize, j + 1))
      invariant forall b :: 0 <= b < fsize && (bits[b] || b < isize) ==> disk[b] == disk0[b]
    {
      UnmarkedIs(bits, fsize, j + 1);
      if !bits[j] {
        ghost var a := free[..];
        MountedTop(isize, fsize, disk, nfree, a, tfree, Unmarked(bits, fsize, j + 1));
        var image: Block := *;
        image := LinkBlock(image, nfree, free[..]);
        MountedPut(isize, fsize, disk, nfree, a, tfree, Unmarked(bits, fsize, j + 1), j, image);
        if nfree == TABSIZE {
          disk := disk[j := image];
          nfree := 0;
        }
        tfree := tfree + 1;
        free[nfree] := j;
        assert free[..] == a[nfree := j];
        nfree := nfree + 1;
      }
      j := j - 1;
    }
    // the superblock
    UnmarkedIs(bits, fsize, isize);
    var super: Block := *;
    MountedFrame(isize, fsize, disk, nfree, free[..], tfree, Unmarked(bits, fsize, isize), 1, super);
    disk := disk[1 := super];
  }

  /** Only the content of owned blocks matters for ownership. */
  lemma RebuiltOwns(v: View, disk': seq<Block>, free': seq<Word>)
    requires Owns(v) && |disk'| == |v.disk|
    requires forall b :: 0 <= b < |v.disk| && v.role[b].Owned? ==> disk'[b] == v.disk[b]
    requires forall x: Word :: x in free' <==> x in v.free
    ensures Owns(View(v.isize, disk', v.inodes, free', v.role))
  {
    var v' := View(v.isize, disk', v.inodes, free', v.role);
    forall i | 0 <= i < |free'|
      ensures v.isize <= free'[i] < |v.role|
    {
      assert free'[i] in free';
      var k :| 0 <= k < |v.free| && v.free[k] == free'[i];
    }
    forall b: nat | b < |v'.role| && v'.role[b].Owned?
      ensures CellOk(v', v'.role[b].cell, v'.role[b].level) && CellValue(v', v'.role[b].cell) == b && v'.role[b].level <= 2
    {
      assert CellOk(v, v.role[b].cell, v.role[b].level) && CellValue(v, v.role[b].cell) == b;
    }
  }

  /** Lists without repetition that have the same members have the same length. */
  lemma {:induction false} SetSize(s: seq<Word>)
    requires Distinct(s)
    ensures |Members(s)| == |s|
    decreases |s|
  {
    if s != [] {
      SetSize(s[1..]);
      assert s[0] !in Members(s[1..]);
      assert Members(s) == Members(s[1..]) + {s[0]};
    }
  }

  function Members(s: seq<Word>): set<Word> {
    set x | x in s
  }

  lemma SameLength(s: seq<Word>, t: seq<Word>)
    requires Distinct(s) && Distinct(t) && forall x: Word :: x in s <==> x in t
    ensures |s| == |t|
  {
    SetSize(s);
    SetSize(t);
    assert Members(s) == Members(t);
  }

  /** Passes 1 and 2 together, on the image of a mounted file system: the rebuilt free list holds the
      kernel's free set, its count is the kernel's, and the file system can be mounted again. */
  method Check(fs: Fs) returns (disk: seq<Block>, nfree: nat, free: array<Word>, tfree: nat, complaint: bool)
    requires fs.Valid() && Consistent(fs.Now()) && fs.st.isize >= 2
    requires CountersFit(fs.inodes) && forall n :: 0 <= n < |fs.inodes| ==> NoneBeyond(fs.Now(), n)
    ensures !complaint && fresh(free)
    ensures exists s: seq<Word> ::
      && Mounted(fs.st.isize, fs.st.fsize, disk, nfree, free[..], tfree, s)
      && (forall x: Word :: x in s <==> x in fs.st.stack)
      && Owns(View(fs.st.isize, disk, fs.inodes, s, fs.role))
    ensures tfree == fs.st.tfree
  {
    hide NoneBeyond, Owns, Holds, Distinct, InRange;
    ghost var v := fs.Now();
    MountedFacts(fs);
    var bits;
    bits, complaint := Pass1(fs.st.isize, fs.st.fsize, fs.st.disk, fs.inodes, v);
    disk, nfree, free, tfree := Pass2(fs.st.isize, fs.st.fsize, fs.st.disk, bits);
    ghost var s := Unmarked(bits, fs.st.fsize, fs.st.isize);
    FreeSet(v, bits, s);
    RebuiltOwns(v, disk, s);
    SameLength(s, v.free);
  }

  lemma MountedFacts(fs: Fs)
    requires fs.Valid()
    ensures |fs.st.disk| == fs.st.fsize && 2 <= fs.st.isize < fs.st.fsize < 65536 && fs.st.tfree == |fs.st.stack|
    ensures Distinct(fs.st.stack) && Shape(fs.Now())
    ensures !fs.role[1].Owned?
  {
  }

  lemma FreeSet(v: View, bits: seq<bool>, s: seq<Word>)
    requires Owns(v) && |bits| == |v.disk| && forall b :: 0 <= b < |bits| ==> (bits[b] <==> v.role[b].Owned?)
    requires s == Unmarked(bits, |bits|, v.isize)
    ensures Distinct(s) && forall x: Word :: x in s <==> x in v.free
  {
    UnmarkedIs(bits, |bits|, v.isize);
    forall x: Word
      ensures x in s <==> x in v.free
    {
      assert x in v.free ==> x < |v.role|;
    }
  }
}
