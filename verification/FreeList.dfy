/** The free block list of a mounted file system: the 50-entry s_free array that spills into the
    free blocks themselves, as blk_alloc and blk_free keep it (Kernel/filesys.c). */
module FreeList {
  import opened Blocks

  /** FILESYS_TABSIZE */
  const TABSIZE: nat := 50

  /** The words blk_free copies over a spilled block: s_nfree, then the whole s_free array. */
  function LinkCount(b: Block): Word {
    WordAt(b, 0)
  }

  function LinkTable(b: Block): (a: seq<Word>)
    ensures |a| == TABSIZE
  {
    seq(TABSIZE, i requires 0 <= i < TABSIZE => WordAt(b, i + 1))
  }

  /** The in-core part (n, a) and the chain of link blocks on the disk together hold the stack s, top
      of the stack last.  The oldest segment starts with a zero; every other one starts with the
      number of the link block that holds the segment below it. */
  ghost predicate Holds(disk: seq<Block>, n: int, a: seq<Word>, s: seq<Word>)
    decreases |s|
  {
    && 1 <= n <= TABSIZE == |a|
    && n - 1 <= |s|
    && a[1..n] == s[|s| - (n - 1)..]
    && if |s| == n - 1 then a[0] == 0 else
         var r := |s| - n;
         a[0] == s[r] && s[r] < |disk| && Holds(disk, LinkCount(disk[s[r]]), LinkTable(disk[s[r]]), s[..r])
  }

  ghost predicate Distinct<T>(s: seq<T>) {
    forall i, j :: 0 <= i < j < |s| ==> s[i] != s[j]
  }

  ghost predicate InRange(s: seq<Word>, lo: int, hi: int) {
    forall i :: 0 <= i < |s| ==> lo <= s[i] < hi
  }

  /** Only the link blocks matter, and those are free blocks: anything else may change. */
  lemma {:induction false} HoldsFrame(disk: seq<Block>, disk': seq<Block>, n: int, a: seq<Word>, s: seq<Word>)
    requires Holds(disk, n, a, s)
    requires |disk| == |disk'|
    requires forall b :: b in s && b < |disk| ==> disk'[b] == disk[b]
    ensures Holds(disk', n, a, s)
    decreases |s|
  {
    if |s| != n - 1 {
      var r := |s| - n;
      assert s[r] in s;
      assert forall b :: b in s[..r] ==> b in s;
      HoldsFrame(disk, disk', LinkCount(disk[s[r]]), LinkTable(disk[s[r]]), s[..r]);
    }
  }

  /** The list on the disk determines the stack: a free list has one meaning. */
  lemma {:induction false} HoldsUnique(disk: seq<Block>, n: int, a: seq<Word>, s: seq<Word>, t: seq<Word>)
    requires Holds(disk, n, a, s) && Holds(disk, n, a, t)
    requires 0 !in s && 0 !in t
    ensures s == t
    decreases |s|
  {
    if |s| == n - 1 || |t| == n - 1 {
      assert a[0] == 0;
      assert |s| == |t| == n - 1;
      assert s == s[|s| - (n - 1)..] == a[1..n] == t[|t| - (n - 1)..] == t;
    } else {
      var r, q := |s| - n, |t| - n;
      HoldsUnique(disk, LinkCount(disk[s[r]]), LinkTable(disk[s[r]]), s[..r], t[..q]);
      assert s[r + 1..] == t[q + 1..];
      assert s == s[..r] + [s[r]] + s[r + 1..];
      assert t == t[..q] + [t[q]] + t[q + 1..];
    }
  }

  /** Popping below a full segment. */
  lemma HoldsPop(disk: seq<Block>, n: int, a: seq<Word>, s: seq<Word>)
    requires Holds(disk, n, a, s) && n > 1
    ensures |s| > 0 && a[n - 1] == s[|s| - 1]
    ensures Holds(disk, n - 1, a, s[..|s| - 1])
  {
    var t := s[..|s| - 1];
    var top := s[|s| - (n - 1)..];
    assert a[1..n] == top;
    assert a[1..n][n - 2] == top[n - 2];
    assert a[1..n - 1] == top[..n - 2];
    assert top[..n - 2] == t[|t| - (n - 2)..];
    if |s| != n - 1 {
      assert t[..|s| - n] == s[..|s| - n];
    }
  }

  /** Popping the top: if that empties the table, the block popped is the link to the segment below. */
  lemma HoldsTake(disk: seq<Block>, n: int, a: seq<Word>, s: seq<Word>, zeroed: Block)
    requires Holds(disk, n, a, s) && s != [] && Distinct(s)
    requires InRange(s, 1, |disk|)
    ensures a[n - 1] == s[|s| - 1] != 0
    ensures
      var b, rest := a[n - 1], s[..|s| - 1];
      var n', a' := if n == 1 then LinkCount(disk[b]) else n - 1, if n == 1 then LinkTable(disk[b]) else a;
      Holds(disk[b := zeroed], n', a', rest)
  {
    var b, rest := s[|s| - 1], s[..|s| - 1];
    var n', a';
    if n == 1 {
      n', a' := LinkCount(disk[b]), LinkTable(disk[b]);
    } else {
      n', a' := n - 1, a;
      HoldsPop(disk, n, a, s);
    }
    HoldsFrame(disk, disk[b := zeroed], n', a', rest);
  }

  /** Pushing while there is room in the table. */
  lemma HoldsPush(disk: seq<Block>, n: int, a: seq<Word>, s: seq<Word>, b: Word)
    requires Holds(disk, n, a, s) && n < TABSIZE
    ensures Holds(disk, n + 1, a[n := b], s + [b])
  {
    var t := s + [b];
    assert a[n := b][1..n + 1] == a[1..n] + [b] == t[|t| - n..];
    if |s| != n - 1 {
      assert t[..|s| - n] == s[..|s| - n];
    }
  }

  /** Pushing when the table is full: the block pushed becomes the link to everything below it. */
  lemma HoldsSpill(disk: seq<Block>, a: seq<Word>, s: seq<Word>, b: Word, link: Block, a': seq<Word>)
    requires Holds(disk, TABSIZE, a, s)
    requires b < |disk| && b !in s
    requires LinkCount(link) == TABSIZE && LinkTable(link) == a
    requires |a'| == TABSIZE && a'[0] == b
    ensures Holds(disk[b := link], 1, a', s + [b])
  {
    var disk' := disk[b := link];
    HoldsFrame(disk, disk', TABSIZE, a, s);
    var t := s + [b];
    assert t[..|t| - 1] == s;
    assert a'[1..1] == t[|t|..];
    assert disk'[b] == link;
  }

  /** A mounted superblock and the device under it, with s the stack of free blocks they stand for. */
  ghost predicate Mounted(isize: int, fsize: int, disk: seq<Block>, n: int, a: seq<Word>, tfree: int, s: seq<Word>) {
    && 2 <= isize < fsize == |disk| < 65536
    && Holds(disk, n, a, s)
    && Distinct(s)
    && InRange(s, isize, fsize)
    && tfree == |s|
  }

  /** Writing to a block that is not free leaves the free list alone. */
  lemma MountedFrame(isize: int, fsize: int, disk: seq<Block>, n: int, a: seq<Word>, tfree: int, s: seq<Word>,
                     b: nat, data: Block)
    requires Mounted(isize, fsize, disk, n, a, tfree, s)
    requires b < |disk| && b !in s
    ensures Mounted(isize, fsize, disk[b := data], n, a, tfree, s)
  {
    HoldsFrame(disk, disk[b := data], n, a, s);
  }

  /** The entry blk_alloc takes: the top of the stack, or the zero that ends an empty list. */
  lemma MountedTop(isize: int, fsize: int, disk: seq<Block>, n: int, a: seq<Word>, tfree: int, s: seq<Word>)
    requires Mounted(isize, fsize, disk, n, a, tfree, s)
    ensures 1 <= n <= TABSIZE == |a|
    ensures a[n - 1] == (if s == [] then 0 else s[|s| - 1])
    ensures s == [] ==> n == 1
  {
    if n > 1 {
      assert a[1..n][n - 2] == s[|s| - (n - 1)..][n - 2];
    }
  }

  /** An empty free list: s_nfree = 1 and s_free[0] = 0. */
  lemma MountedEmpty(isize: int, fsize: int, disk: seq<Block>, a: seq<Word>)
    requires 2 <= isize < fsize == |disk| < 65536 && |a| == TABSIZE && a[0] == 0
    ensures Mounted(isize, fsize, disk, 1, a, 0, [])
  {
  }

  /** What blk_alloc does to a nonempty list. */
  lemma MountedTake(isize: int, fsize: int, disk: seq<Block>, n: int, a: seq<Word>, tfree: int, s: seq<Word>)
    requires Mounted(isize, fsize, disk, n, a, tfree, s) && s != []
    ensures
      var b, rest := s[|s| - 1], s[..|s| - 1];
      var n', a' := if n == 1 then LinkCount(disk[b]) else n - 1, if n == 1 then LinkTable(disk[b]) else a;
      && a[n - 1] == b && b !in rest && s == rest + [b]
      && Mounted(isize, fsize, disk[b := ZeroBlock()], n', a', tfree - 1, rest)
  {
    HoldsTake(disk, n, a, s, ZeroBlock());
  }

  /** What blk_free does: link is the image left in a block that has to take the full table. */
  lemma MountedPut(isize: int, fsize: int, disk: seq<Block>, n: int, a: seq<Word>, tfree: int, s: seq<Word>,
                   b: Word, link: Block)
    requires Mounted(isize, fsize, disk, n, a, tfree, s)
    requires isize <= b < fsize && b !in s
    requires n == TABSIZE ==> LinkCount(link) == n && LinkTable(link) == a
    ensures 1 <= n <= TABSIZE
    ensures
      var full := n == TABSIZE;
      var n' := if full then 0 else n;
      Mounted(isize, fsize, if full then disk[b := link] else disk, n' + 1, a[n' := b], tfree + 1, s + [b])
  {
    if n == TABSIZE {
      HoldsSpill(disk, a, s, b, link, a[0 := b]);
    } else {
      HoldsPush(disk, n, a, s, b);
    }
  }

  class Store {
    /** First data block and first block past the end of the device. */
    const isize: nat
    const fsize: nat
    /** The device, as seen through the buffer cache. */
    var disk: seq<Block>
    /** s_nfree, s_free and s_tfree of the superblock. */
    var nfree: nat
    const sfree: array<Word>
    var tfree: nat
    /** The free blocks, most recently freed last. */
    ghost var stack: seq<Word>

    ghost predicate Valid()
      reads this, sfree
    {
      Mounted(isize, fsize, disk, nfree, sfree[..], tfree, stack)
    }

    /** Mount a device with the free list its superblock describes. */
    constructor (isize: nat, fsize: nat, image: seq<Block>, nfree: nat, free: seq<Word>, tfree: nat, ghost s: seq<Word>)
      requires Mounted(isize, fsize, image, nfree, free, tfree, s)
      ensures Valid() && fresh(sfree)
      ensures this.isize == isize && this.fsize == fsize && disk == image && stack == s
    {
      hide Holds, Distinct, InRange;
      this.isize, this.fsize := isize, fsize;
      disk := image;
      this.nfree, this.tfree := nfree, tfree;
      var a := new Word[TABSIZE](i requires 0 <= i < TABSIZE => if i < |free| then free[i] else 0);
      sfree := a;
      stack := s;
      new;
      MountedTop(isize, fsize, image, nfree, free, tfree, s);
      assert sfree[..] == free;
    }

    /** blk_free: push one block. */
    method BlkFree(blk: Word)
      requires Valid()
      requires blk != 0 ==> isize <= blk < fsize && blk !in stack
      modifies this, sfree
      ensures Valid()
      ensures stack == if blk == 0 then old(stack) else old(stack) + [blk]
      ensures |disk| == |old(disk)|
      ensures forall b :: 0 <= b < fsize && b != blk ==> disk[b] == old(disk[b])
      ensures old(nfree) < TABSIZE ==> disk == old(disk)
    {
      hide Holds, LinkBlock, LinkTable, LinkCount, Distinct, InRange;
      if blk == 0 {
        return;
      }
      ghost var a, s := sfree[..], stack;
      // bread with rewrite set does not read the block: the buffer holds what it happened to hold
      var buf: Block := *;
      MountedTop(isize, fsize, disk, nfree, a, tfree, s);
      buf := LinkBlock(buf, nfree, sfree[..]);
      MountedPut(isize, fsize, disk, nfree, a, tfree, s, blk, buf);
      if nfree == TABSIZE {
        disk := disk[blk := buf];
        nfree := 0;
      }
      tfree := tfree + 1;
      sfree[nfree] := blk;
      assert sfree[..] == a[nfree := blk];
      nfree := nfree + 1;
      stack := s + [blk];
    }

    /** blk_alloc: pop one block and zero it; 0 when the list is empty. */
    method BlkAlloc() returns (newno: Word)
      requires Valid()
      modifies this, sfree
      ensures Valid()
      ensures newno == 0 <==> old(stack) == []
      ensures newno == 0 ==> stack == [] && disk == old(disk)
      ensures newno != 0 ==>
        && old(stack) == stack + [newno]
        && newno !in stack && isize <= newno < fsize
        && disk == old(disk)[newno := ZeroBlock()]
    {
      hide Holds;
      ghost var s, a := stack, sfree[..];
      MountedTop(isize, fsize, disk, nfree, a, tfree, s);
      if s != [] {
        MountedTake(isize, fsize, disk, nfree, a, tfree, s);
      }
      nfree := nfree - 1;
      newno := sfree[nfree];
      if newno == 0 {
        nfree := nfree + 1;
        return;
      }
      assert s != [];
      if nfree == 0 {
        Refill(disk[newno]);
      }
      tfree := tfree - 1;
      stack := stack[..|stack| - 1];
      disk := disk[newno := ZeroBlock()];
    }

    /** Reload s_nfree and s_free from a link block. */
    method Refill(buf: Block)
      requires sfree.Length == TABSIZE
      modifies this`nfree, sfree
      ensures nfree == LinkCount(buf) && sfree[..] == LinkTable(buf)
    {
      nfree := LinkCount(buf);
      var a := LinkTable(buf);
      forall i | 0 <= i < TABSIZE {
        sfree[i] := a[i];
      }
    }
  }

  /** The image blk_free leaves in the buffer of a spilled block. */
  function LinkBlock(buf: Block, n: Word, a: seq<Word>): (r: Block)
    requires |a| == TABSIZE
    ensures LinkCount(r) == n && LinkTable(r) == a
  {
    PutWords(buf, [n] + a)
  }

  /** On the device: the count, then the fifty numbers, each with its low byte first, and what the buffer held. */
  lemma LinkBytes(buf: Block, n: Word, a: seq<Word>, i: nat)
    requires |a| == 50 && i < 512
    ensures LinkBlock(buf, n, a)[i] ==
      if i >= 102 then buf[i]
      else var w := if i < 2 then n else a[i / 2 - 1]; if i % 2 == 0 then w % 256 else w / 256
  {
    if i >= 102 {
      assert LinkBlock(buf, n, a)[102..][i - 102] == buf[102..][i - 102];
    } else {
      var r, k := LinkBlock(buf, n, a), i / 2;
      assert WordAt(r, k) == ([n] + a)[k];
    }
  }
}
