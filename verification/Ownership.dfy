/** Who owns each disk block.  Every block past the inode area has one role: it is free, or it is
    named by exactly one pointer cell, which is a slot of an inode or an entry of an indirect block. */
module Ownership {
  import opened Blocks
  import opened FreeList

  /** Slots of i_addr: 0..17 direct, 18 single indirect, 19 double indirect. */
  const SLOTS: nat := 20
  const DIRECT: nat := 18

  /** Other covers unused inodes and devices, whose i_addr holds no block numbers. */
  datatype Mode = Reg | Dir | Pipe | Other

  datatype Inode = Inode(mode: Mode, addr: seq<Word>, size: nat)

  datatype Cell = Slot(ino: nat, k: nat) | Entry(blk: nat, i: nat)

  /** level 0 is a data block, 1 holds pointers to data, 2 holds pointers to level 1. */
  datatype Role = Free | Owned(cell: Cell, level: nat) | Reserved

  /** Everything the block layer is about: the device, the inode table, the stack of free blocks that
      the free list stands for, and the role of each block. */
  datatype View = View(isize: nat, disk: seq<Block>, inodes: seq<Inode>, free: seq<Word>, role: seq<Role>)

  function SlotLevel(k: nat): nat {
    if k < DIRECT then 0 else k - 17
  }

  ghost predicate Is(role: seq<Role>, b: int, c: Cell, l: int) {
    0 <= b < |role| && role[b].Owned? && role[b].cell == c && role[b].level == l
  }

  ghost predicate Shape(v: View) {
    && (forall n :: 0 <= n < |v.inodes| ==> |v.inodes[n].addr| == SLOTS)
    && 1 <= v.isize < |v.disk| == |v.role| <= 65535
  }

  ghost predicate SlotsOk(v: View)
    requires Shape(v)
  {
    forall n: nat, k: nat :: n < |v.inodes| && k < SLOTS && v.inodes[n].addr[k] != 0
      ==> Is(v.role, v.inodes[n].addr[k], Slot(n, k), SlotLevel(k))
  }

  ghost predicate EntriesOk(v: View)
    requires Shape(v)
  {
    forall b: nat, i: nat ::
      b < |v.role| && v.role[b].Owned? && v.role[b].level > 0 && i < PTRS && WordAt(v.disk[b], i) != 0
      ==> Is(v.role, WordAt(v.disk[b], i), Entry(b, i), v.role[b].level - 1)
  }

  /** The cell c belongs to a file, and a pointer in it names a block of level l. */
  ghost predicate CellOk(v: View, c: Cell, l: nat)
    requires Shape(v)
  {
    match c
    case Slot(n, k) => n < |v.inodes| && k < SLOTS && l == SlotLevel(k)
    case Entry(p, i) => p < |v.role| && i < PTRS && v.role[p].Owned? && v.role[p].level == l + 1
  }

  ghost function CellValue(v: View, c: Cell): Word
    requires Shape(v)
    requires match c case Slot(n, k) => n < |v.inodes| && k < SLOTS case Entry(p, i) => p < |v.disk| && i < PTRS
  {
    match c
    case Slot(n, k) => v.inodes[n].addr[k]
    case Entry(p, i) => WordAt(v.disk[p], i)
  }

  /** The cell a role names really points at the block. */
  ghost predicate BackOk(v: View)
    requires Shape(v)
  {
    forall b: nat :: b < |v.role| && v.role[b].Owned?
      ==> CellOk(v, v.role[b].cell, v.role[b].level) && CellValue(v, v.role[b].cell) == b && v.role[b].level <= 2
  }

  ghost predicate FreeOk(v: View)
    requires Shape(v)
  {
    && InRange(v.free, v.isize, |v.role|)
    && (forall b: nat :: b < |v.role| ==> (v.role[b].Free? <==> b in v.free))
    && (forall b: nat :: b < |v.role| ==> (v.role[b].Reserved? <==> b < v.isize))
  }

  ghost predicate Owns(v: View) {
    Shape(v) && SlotsOk(v) && EntriesOk(v) && BackOk(v) && FreeOk(v)
  }

  // ---------------------------------------------------------------- the block map

  /** One step through an indirect block; 0 stands for "no block". */
  function Follow(disk: seq<Block>, p: Word, i: nat): Word
    requires i < PTRS
  {
    if p == 0 || p >= |disk| then 0 else WordAt(disk[p], i)
  }

  /** Entry indices of a logical block past the single indirect range. */
  function Hi(bn: Word): (i: nat)
    requires bn >= DIRECT + PTRS
    ensures i < PTRS
  {
    (bn - DIRECT - PTRS) / PTRS
  }

  function Lo(bn: Word): (i: nat)
    requires bn >= DIRECT + PTRS
    ensures i < PTRS
  {
    (bn - DIRECT - PTRS) % PTRS
  }

  /** The physical block of logical block bn, or 0. */
  function Lookup(disk: seq<Block>, addr: seq<Word>, bn: Word): Word
    requires |addr| == SLOTS
  {
    if bn < DIRECT then addr[bn]
    else if bn < DIRECT + PTRS then Follow(disk, addr[18], bn - DIRECT)
    else Follow(disk, Follow(disk, addr[19], Hi(bn)), Lo(bn))
  }

  /** A 16-bit number of two bytes, the low one first. */
  function Number(b: Block, i: nat): nat
    requires i < 256
  {
    var lo: nat, hi: nat := b[2 * i], b[2 * i + 1];
    lo + 256 * hi
  }

  /** Where a file's blocks are on the device: 18 in the inode, 256 more through the next slot, and 65536 more two
      levels down from the last. */
  lemma Layout(disk: seq<Block>, addr: seq<Word>, bn: Word)
    requires |addr| == SLOTS
    ensures bn < 18 ==> Lookup(disk, addr, bn) == addr[bn]
    ensures 18 <= bn < 274 && 0 != addr[18] < |disk| ==> Lookup(disk, addr, bn) == Number(disk[addr[18]], bn - 18)
    ensures 274 <= bn < 65536 && 0 != addr[19] < |disk| ==>
      var q := Number(disk[addr[19]], (bn - 274) / 256);
      0 != q < |disk| ==> Lookup(disk, addr, bn) == Number(disk[q], (bn - 274) % 256)
  {
  }

  /** The physical block of block bn of inode n. */
  ghost function Map(v: View, n: nat, bn: Word): Word
    requires Shape(v) && n < |v.inodes|
  {
    Lookup(v.disk, v.inodes[n].addr, bn)
  }

  /** How many blocks have to be allocated before bn is mapped. */
  ghost function Missing(v: View, n: nat, bn: Word): nat
    requires Shape(v) && n < |v.inodes|
  {
    var addr := v.inodes[n].addr;
    if Map(v, n, bn) != 0 then 0
    else if bn < DIRECT then 1
    else if bn < DIRECT + PTRS then if addr[18] == 0 then 2 else 1
    else if addr[19] == 0 then 3 else if Follow(v.disk, addr[19], Hi(bn)) == 0 then 2 else 1
  }

  /** j is a value bmap's loop variable takes on the way to bn; 3 is past the last indirect block. */
  predicate OnWalk(bn: Word, j: int) {
    1 <= j <= 3 && (j == 2 ==> bn >= DIRECT) && (j == 1 ==> bn >= DIRECT + PTRS)
  }

  /** The block bmap has reached when its loop variable is j. */
  ghost function Node(v: View, n: nat, bn: Word, j: nat): Word
    requires Shape(v) && n < |v.inodes| && OnWalk(bn, j)
  {
    if j == 3 then Map(v, n, bn)
    else if j == 1 then v.inodes[n].addr[19]
    else if bn < DIRECT + PTRS then v.inodes[n].addr[18] else Follow(v.disk, v.inodes[n].addr[19], Hi(bn))
  }

  /** The cell that holds, or would hold, that block's number. */
  ghost function NodeCell(v: View, n: nat, bn: Word, j: nat): Cell
    requires Shape(v) && n < |v.inodes| && OnWalk(bn, j)
  {
    if j == 1 then Slot(n, 19)
    else if j == 2 then if bn < DIRECT + PTRS then Slot(n, 18) else Entry(v.inodes[n].addr[19], Hi(bn))
    else if bn < DIRECT then Slot(n, bn)
    else if bn < DIRECT + PTRS then Entry(Node(v, n, bn, 2), bn - DIRECT)
    else Entry(Node(v, n, bn, 2), Lo(bn))
  }

  /** Each block on the way to bn has the cell before it as its role, one level below. */
  lemma NodeRole(v: View, n: nat, bn: Word, j: nat)
    requires Owns(v) && n < |v.inodes| && OnWalk(bn, j)
    requires Node(v, n, bn, j) != 0
    ensures Is(v.role, Node(v, n, bn, j), NodeCell(v, n, bn, j), 3 - j)
  {
    var addr := v.inodes[n].addr;
    if bn < DIRECT {
    } else if bn < DIRECT + PTRS {
      assert Is(v.role, addr[18], Slot(n, 18), SlotLevel(18));
    } else {
      assert Is(v.role, addr[19], Slot(n, 19), SlotLevel(19));
      assert j >= 2 ==> Is(v.role, Follow(v.disk, addr[19], Hi(bn)), Entry(addr[19], Hi(bn)), 1);
    }
  }

  /** Two logical blocks with the same leaf cell are the same block of the same file. */
  lemma LeafInjective(v: View, n: nat, bn: Word, m: nat, bm: Word)
    requires Owns(v) && n < |v.inodes| && m < |v.inodes|
    requires NodeCell(v, n, bn, 3) == NodeCell(v, m, bm, 3)
    requires var c := NodeCell(v, n, bn, 3); c.Entry? ==> c.blk != 0
    ensures n == m && bn == bm
  {
    if bn >= DIRECT {
      NodeRole(v, n, bn, 2);
      NodeRole(v, m, bm, 2);
    }
    if bn >= DIRECT + PTRS {
      NodeRole(v, n, bn, 1);
      assert bn == DIRECT + PTRS + PTRS * Hi(bn) + Lo(bn);
    }
    if bm >= DIRECT + PTRS {
      NodeRole(v, m, bm, 1);
      assert bm == DIRECT + PTRS + PTRS * Hi(bm) + Lo(bm);
    }
  }

  /** Distinct logical blocks, of one file or of two, never share a physical block. */
  lemma MapInjective(v: View, n: nat, bn: Word, m: nat, bm: Word)
    requires Owns(v) && n < |v.inodes| && m < |v.inodes|
    requires Map(v, n, bn) == Map(v, m, bm) != 0
    ensures n == m && bn == bm
  {
    NodeRole(v, n, bn, 3);
    NodeRole(v, m, bm, 3);
    if bn >= DIRECT && Node(v, n, bn, 2) != 0 {
      NodeRole(v, n, bn, 2);
    }
    LeafInjective(v, n, bn, m, bm);
  }

  // ---------------------------------------------------------------- linking a fresh block

  ghost predicate Vacant(v: View, c: Cell, l: nat)
    requires Shape(v)
  {
    CellOk(v, c, l) && CellValue(v, c) == 0
  }

  function SetDisk(disk: seq<Block>, c: Cell, v: Word): (r: seq<Block>)
    requires c.Entry? ==> c.blk < |disk| && c.i < PTRS
    ensures |r| == |disk|
  {
    match c
    case Slot(_, _) => disk
    case Entry(p, i) => disk[p := SetWord(disk[p], i, v)]
  }

  function SetInodes(inodes: seq<Inode>, c: Cell, v: Word): (r: seq<Inode>)
    requires c.Slot? ==> c.ino < |inodes| && c.k < |inodes[c.ino].addr|
    ensures |r| == |inodes|
    ensures forall n :: 0 <= n < |r| ==>
      r[n].size == inodes[n].size && r[n].mode == inodes[n].mode && |r[n].addr| == |inodes[n].addr|
  {
    match c
    case Slot(n, k) => inodes[n := inodes[n].(addr := inodes[n].addr[k := v])]
    case Entry(_, _) => inodes
  }

  ghost predicate Linkable(v: View, c: Cell, l: nat) {
    Owns(v) && Distinct(v.free) && Vacant(v, c, l) && v.free != []
  }

  /** Take the top of the free stack, zero it and store its number in the cell c. */
  ghost function Linked(v: View, c: Cell, l: nat): (v': View)
    requires Linkable(v, c, l)
    ensures Shape(v') && |v'.inodes| == |v.inodes| && |v'.disk| == |v.disk|
  {
    var k := |v.free| - 1;
    var nb := v.free[k];
    assert v.isize <= nb < |v.role|;
    View(v.isize, SetDisk(v.disk[nb := ZeroBlock()], c, nb), SetInodes(v.inodes, c, nb), v.free[..k],
         v.role[nb := Owned(c, l)])
  }

  lemma LinkOwns(v: View, c: Cell, l: nat)
    requires Linkable(v, c, l)
    ensures Owns(Linked(v, c, l))
  {
    LinkTop(v, c, l);
    LinkSlots(v, c, l);
    LinkEntries(v, c, l);
    LinkBack(v, c, l);
  }

  /** The block taken was free, so it is neither the cell's own block nor on the remaining list. */
  lemma LinkTop(v: View, c: Cell, l: nat)
    requires Linkable(v, c, l)
    ensures var nb := v.free[|v.free| - 1];
      && 1 <= nb < |v.disk| && nb in v.free && v.role[nb].Free? && nb !in v.free[..|v.free| - 1]
      && (c.Entry? ==> c.blk != nb && c.blk !in v.free)
      && FreeOk(Linked(v, c, l))
  {
    var k := |v.free| - 1;
    assert v.free == v.free[..k] + [v.free[k]];
  }

  lemma LinkSlots(v: View, c: Cell, l: nat)
    requires Linkable(v, c, l)
    ensures SlotsOk(Linked(v, c, l))
  {
    LinkTop(v, c, l);
    var v' := Linked(v, c, l);
    forall n: nat, k: nat | n < |v'.inodes| && k < SLOTS && v'.inodes[n].addr[k] != 0
      ensures Is(v'.role, v'.inodes[n].addr[k], Slot(n, k), SlotLevel(k))
    {
      if c != Slot(n, k) {
        assert v'.inodes[n].addr[k] == v.inodes[n].addr[k];
        assert Is(v.role, v.inodes[n].addr[k], Slot(n, k), SlotLevel(k));
      }
    }
  }

  lemma LinkEntries(v: View, c: Cell, l: nat)
    requires Linkable(v, c, l)
    ensures EntriesOk(Linked(v, c, l))
  {
    LinkTop(v, c, l);
    var v' := Linked(v, c, l);
    forall b: nat, i: nat |
      b < |v'.role| && v'.role[b].Owned? && v'.role[b].level > 0 && i < PTRS && WordAt(v'.disk[b], i) != 0
      ensures Is(v'.role, WordAt(v'.disk[b], i), Entry(b, i), v'.role[b].level - 1)
    {
      if c != Entry(b, i) {
        assert WordAt(v'.disk[b], i) == WordAt(v.disk[b], i);
        assert Is(v.role, WordAt(v.disk[b], i), Entry(b, i), v.role[b].level - 1);
      }
    }
  }

  lemma LinkBack(v: View, c: Cell, l: nat)
    requires Linkable(v, c, l)
    ensures BackOk(Linked(v, c, l))
  {
    LinkTop(v, c, l);
    var v' := Linked(v, c, l);
    forall b: nat | b < |v'.role| && v'.role[b].Owned?
      ensures CellOk(v', v'.role[b].cell, v'.role[b].level) && CellValue(v', v'.role[b].cell) == b && v'.role[b].level <= 2
    {
      if b != v.free[|v.free| - 1] {
        assert CellOk(v, v.role[b].cell, v.role[b].level) && CellValue(v, v.role[b].cell) == b;
      }
    }
  }

  /** Entries of pointer blocks after a link: only the filled cell differs, and the new block is empty. */
  lemma LinkFollow(v: View, c: Cell, l: nat, p: Word, i: nat)
    requires Linkable(v, c, l) && i < PTRS
    ensures var nb := v.free[|v.free| - 1];
      Follow(Linked(v, c, l).disk, p, i) ==
        if p == nb then 0 else if p != 0 && c == Entry(p, i) then nb else Follow(v.disk, p, i)
  {
    LinkTop(v, c, l);
  }

  /** The same, through the block that a slot of an inode names. */
  lemma SlotFollow(v: View, c: Cell, l: nat, m: nat, k: nat, i: nat)
    requires Linkable(v, c, l) && i < PTRS && m < |v.inodes| && DIRECT <= k < SLOTS
    ensures
      var nb, a, v' := v.free[|v.free| - 1], v.inodes[m].addr, Linked(v, c, l);
      var p := Follow(v.disk, a[k], i);
      && (a[k] != 0 ==> Is(v.role, a[k], Slot(m, k), k - 17))
      && (p != 0 ==> Is(v.role, p, Entry(a[k], i), k - 18))
      && Follow(v'.disk, v'.inodes[m].addr[k], i) == if a[k] != 0 && c == Entry(a[k], i) then nb else p
  {
    LinkTop(v, c, l);
    assert v.inodes[m].addr[k] != 0 ==> Is(v.role, v.inodes[m].addr[k], Slot(m, k), SlotLevel(k));
    LinkFollow(v, c, l, v.inodes[m].addr[k], i);
    LinkFollow(v, c, l, v.free[|v.free| - 1], i);
  }

  /** Storing a fresh zeroed block in a pointer cell changes at most one mapping: that of the logical
      block whose leaf cell was filled. */
  lemma LinkMap(v: View, c: Cell, l: nat, m: nat, bm: Word)
    requires Linkable(v, c, l) && m < |v.inodes|
    ensures Map(Linked(v, c, l), m, bm) ==
      if l == 0 && NodeCell(v, m, bm, 3) == c then v.free[|v.free| - 1] else Map(v, m, bm)
  {
    LinkTop(v, c, l);
    var nb, v' := v.free[|v.free| - 1], Linked(v, c, l);
    if DIRECT <= bm < DIRECT + PTRS {
      SlotFollow(v, c, l, m, 18, bm - DIRECT);
    } else if bm >= DIRECT + PTRS {
      hide Owns, SetDisk, Follow, Hi, Lo, SetInodes;
      SlotFollow(v, c, l, m, 19, Hi(bm));
      LinkFollow(v, c, l, nb, Lo(bm));
      LinkFollow(v, c, l, Follow(v.disk, v.inodes[m].addr[19], Hi(bm)), Lo(bm));
    }
  }
}
