/** bmap: from a logical block of a file to a block of the device, allocating on the way when asked. */
module BlockMap {
  import opened Blocks
  import opened FreeList
  import opened Ownership

  /** The entry index bmap computes: (bn >> sh) & 0xff. */
  function Index(bn: nat, sh: int): (i: nat)
    ensures i < PTRS
  {
    if sh == 8 then bn / 256 % 256 else bn % 256
  }

  /** Every logical block of every file maps as before, except that (n, bn) maps to r when r is not 0.
      Sizes and modes are as before, and so are the other inodes, the role of every owned block and the content
      of every data block. */
  ghost predicate Remap(v: View, v': View, n: nat, bn: Word, r: Word) {
    && Shape(v) && Shape(v') && |v'.inodes| == |v.inodes| && |v'.disk| == |v.disk| && v'.isize == v.isize
    && (forall m :: 0 <= m < |v.inodes| ==> v'.inodes[m].size == v.inodes[m].size && v'.inodes[m].mode == v.inodes[m].mode)
    && (forall m :: 0 <= m < |v.inodes| && m != n ==> v'.inodes[m] == v.inodes[m])
    && (forall m: nat, bm: Word :: m < |v.inodes| && (m != n || bm != bn || r == 0) ==> Map(v', m, bm) == Map(v, m, bm))
    && (r != 0 && n < |v.inodes| ==> Map(v', n, bn) == r)
    && (forall b :: 0 <= b < |v.role| && v.role[b].Owned? ==>
          v'.role[b] == v.role[b] && (v.role[b].level == 0 ==> v'.disk[b] == v.disk[b]))
  }

  /** One stretch of the walk to (n, bn), arriving at nb with loop variable j: what was allocated came
      off the top of the free stack, and nothing else happened. */
  ghost predicate Walked(v: View, v': View, n: nat, bn: Word, j: nat, nb: Word) {
    && Remap(v, v', n, bn, if j == 3 then nb else 0)
    && n < |v.inodes| && OnWalk(bn, j)
    && Node(v', n, bn, j) == nb
    && |v'.free| <= |v.free| && v'.free == v.free[..|v'.free|]
    && |v'.free| - Missing(v', n, bn) == |v.free| - Missing(v, n, bn)
    && (|v'.free| == |v.free| ==> v' == v)
    && (nb != 0 && j == 3 && Map(v, n, bn) == 0 ==> nb in v.free && nb < |v'.disk| && v'.disk[nb] == ZeroBlock())
  }

  lemma WalkStart(v: View, n: nat, bn: Word, j: nat)
    requires Shape(v) && n < |v.inodes| && OnWalk(bn, j)
    ensures Walked(v, v, n, bn, j, Node(v, n, bn, j))
  {
    assert v.free == v.free[..|v.free|];
  }

  lemma WalkOn(v: View, v1: View, v2: View, n: nat, bn: Word, j: nat, nb1: Word, nb2: Word)
    requires 1 <= j < 3
    requires Walked(v, v1, n, bn, j, nb1) && Walked(v1, v2, n, bn, j + 1, nb2)
    ensures Walked(v, v2, n, bn, j + 1, nb2)
  {
    hide Map, Missing;
    assert v2.free == v.free[..|v2.free|];
    assert forall b :: b in v1.free ==> b in v.free;
  }

  /** The walk stops early exactly at an unmapped block, and then something is missing. */
  lemma WalkStops(v: View, n: nat, bn: Word, j: nat)
    requires Shape(v) && n < |v.inodes| && OnWalk(bn, j)
    ensures Node(v, n, bn, j) == 0 ==> Map(v, n, bn) == 0
    ensures Missing(v, n, bn) == 0 <==> Map(v, n, bn) != 0
  {
  }

  /** One level down: the pointer bmap fetches from the block it has reached. */
  lemma WalkDown(v: View, n: nat, bn: Word, j: nat, rel: nat, sh: int)
    requires Owns(v) && n < |v.inodes| && OnWalk(bn, j) && j < 3
    requires sh == 8 * (2 - j) && rel == if bn < DIRECT + PTRS then bn - DIRECT else bn - DIRECT - PTRS
    requires Node(v, n, bn, j) != 0
    ensures var p := Node(v, n, bn, j);
      OnWalk(bn, j + 1) && p < |v.disk| && NodeCell(v, n, bn, j + 1) == Entry(p, Index(rel, sh))
  {
    NodeRole(v, n, bn, j);
  }

  lemma NodeVacant(v: View, n: nat, bn: Word, j: nat)
    requires Owns(v) && n < |v.inodes| && OnWalk(bn, j)
    requires var c := NodeCell(v, n, bn, j); c.Entry? ==> c.blk != 0
    ensures CellOk(v, NodeCell(v, n, bn, j), 3 - j)
    ensures CellValue(v, NodeCell(v, n, bn, j)) == Node(v, n, bn, j)
  {
    if NodeCell(v, n, bn, j).Entry? {
      NodeRole(v, n, bn, j - 1);
    }
  }

  /** Filling the cell where the walk stopped gets it one block further. */
  lemma LinkNode(v: View, n: nat, bn: Word, j: nat)
    requires n < |v.inodes| && Owns(v) && OnWalk(bn, j)
    requires Linkable(v, NodeCell(v, n, bn, j), 3 - j)
    requires Node(v, n, bn, j) == 0
    ensures var v' := Linked(v, NodeCell(v, n, bn, j), 3 - j);
      Node(v', n, bn, j) == v.free[|v.free| - 1] && Missing(v', n, bn) == Missing(v, n, bn) - 1
  {
    var c := NodeCell(v, n, bn, j);
    LinkTop(v, c, 3 - j);
    if bn >= DIRECT + PTRS {
      assert v.inodes[n].addr[19] != 0 ==> Is(v.role, v.inodes[n].addr[19], Slot(n, 19), SlotLevel(19));
    } else if bn >= DIRECT {
      assert v.inodes[n].addr[18] != 0 ==> Is(v.role, v.inodes[n].addr[18], Slot(n, 18), SlotLevel(18));
    }
  }

  lemma LinkWalked(v: View, n: nat, bn: Word, j: nat)
    requires n < |v.inodes| && Owns(v) && OnWalk(bn, j)
    requires Linkable(v, NodeCell(v, n, bn, j), 3 - j)
    requires var c := NodeCell(v, n, bn, j); c.Entry? ==> c.blk != 0
    requires Node(v, n, bn, j) == 0
    ensures Walked(v, Linked(v, NodeCell(v, n, bn, j), 3 - j), n, bn, j, v.free[|v.free| - 1])
  {
    var c, l, nb := NodeCell(v, n, bn, j), 3 - j, v.free[|v.free| - 1];
    var v' := Linked(v, c, l);
    LinkTop(v, c, l);
    LinkNode(v, n, bn, j);
    forall m: nat, bm: Word | m < |v.inodes|
      ensures Map(v', m, bm) == if j == 3 && m == n && bm == bn then nb else Map(v, m, bm)
    {
      LinkMap(v, c, l, m, bm);
      if l == 0 && NodeCell(v, m, bm, 3) == c {
        LeafInjective(v, n, bn, m, bm);
      }
    }
    hide Map, Missing, Node, EntriesOk, SlotsOk, BackOk;
  }

  class Fs {
    const st: Store
    var inodes: seq<Inode>
    ghost var role: seq<Role>

    ghost function Now(): View
      reads this, st
    {
      View(st.isize, st.disk, inodes, st.stack, role)
    }

    ghost predicate Valid()
      reads this, st, st.sfree
    {
      st.Valid() && Owns(Now())
    }

    /** Mount a device whose inode table has been read in. */
    constructor (st: Store, inodes: seq<Inode>, ghost role: seq<Role>)
      ensures this.st == st && this.inodes == inodes && this.role == role
    {
      this.st, this.inodes, this.role := st, inodes, role;
    }

    /** Fetch the pointer in a cell of the walk to (n, bn).  When it is 0 and this is not a read, allocate
        a block and store its number there.  0 says there is no block. */
    method Fetch(c: Cell, rwflg: bool, ghost n: nat, ghost bn: Word, ghost j: nat) returns (nb: Word)
      requires Valid() && n < |inodes|
      requires OnWalk(bn, j) && c == NodeCell(Now(), n, bn, j) && (c.Entry? ==> c.blk != 0)
      modifies this, st, st.sfree
      ensures Valid() && |inodes| == old(|inodes|)
      ensures Walked(old(Now()), Now(), n, bn, j, nb)
      ensures rwflg ==> Now() == old(Now())
      ensures nb == 0 && !rwflg ==> st.stack == []
    {
      hide Holds, Distinct, InRange, SlotsOk, EntriesOk, BackOk, Walked, Missing, Map;
      ghost var v := Now();
      assert |v.disk| == st.fsize && 1 <= st.isize;
      NodeVacant(v, n, bn, j);
      WalkStart(v, n, bn, j);
      nb := match c case Slot(m, k) => inodes[m].addr[k] case Entry(p, i) => WordAt(st.disk[p], i);
      if nb != 0 || rwflg {
        return;
      }
      nb := st.BlkAlloc();
      if nb == 0 {
        assert Now() == v;
        return;
      }
      LinkTop(v, c, 3 - j);
      LinkOwns(v, c, 3 - j);
      LinkWalked(v, n, bn, j);
      match c {
        case Slot(m, k) =>
          inodes := inodes[m := inodes[m].(addr := inodes[m].addr[k := nb])];
        case Entry(p, i) =>
          MountedFrame(st.isize, st.fsize, st.disk, st.nfree, st.sfree[..], st.tfree, st.stack,
                       p, SetWord(st.disk[p], i, nb));
          st.disk := st.disk[p := SetWord(st.disk[p], i, nb)];
      }
      role := role[nb := Owned(c, 3 - j)];
      assert Now() == Linked(v, c, 3 - j);
    }

    /** bmap.  With rwflg set (a read) nothing is allocated and an unmapped block is NULLBLK.
        Otherwise the missing blocks are allocated, as far as there are any. */
    method Bmap(n: nat, bn: Word, rwflg: bool) returns (nb: Word)
      requires Valid() && n < |inodes|
      modifies this, st, st.sfree
      ensures Valid() && nb != 0 && |inodes| == old(|inodes|)
      ensures Map(Now(), n, bn) == if nb == NULLBLK then 0 else nb
      ensures Remap(old(Now()), Now(), n, bn, if nb == NULLBLK then 0 else nb)
      ensures rwflg || old(Map(Now(), n, bn)) != 0 ==>
        Now() == old(Now()) && nb == var b := Map(Now(), n, bn); if b == 0 then NULLBLK else b
      ensures !rwflg ==>
        var need, have := Missing(old(Now()), n, bn), |old(st.stack)|;
        && (nb == NULLBLK <==> have < need)
        && st.stack == old(st.stack)[..if have < need then 0 else have - need]
        && (0 < need <= have ==> nb in old(st.stack) && st.disk[nb] == ZeroBlock())
    {
      hide Holds, Distinct, InRange, SlotsOk, EntriesOk, BackOk, Map, Missing, Remap, Node, FreeOk;
      ghost var v := Now();
      if bn < DIRECT {
        nb := Fetch(Slot(n, bn), rwflg, n, bn, 3);
        Arrived(v, Now(), n, bn, 3, nb);
        return if nb == 0 then NULLBLK else nb;
      }
      var rel, sh, j := bn - DIRECT, 0, 2;
      if rel > 255 {
        sh, rel, j := 8, rel - 256, 1;
      }
      nb := Fetch(Slot(n, 20 - j), rwflg, n, bn, j);
      if nb == 0 {
        Arrived(v, Now(), n, bn, j, nb);
        return NULLBLK;
      }
      while j <= 2
        invariant Valid() && |inodes| == |v.inodes|
        invariant 1 <= j <= 3 && Walked(v, Now(), n, bn, j, nb) && nb != 0
        invariant sh == 8 * (2 - j) && rel == if bn < DIRECT + PTRS then bn - DIRECT else bn - DIRECT - PTRS
        invariant rwflg ==> Now() == v
      {
        ghost var v1, nb1 := Now(), nb;
        WalkDown(v1, n, bn, j, rel, sh);
        WalkStops(v1, n, bn, j + 1);
        nb := Fetch(Entry(nb, Index(rel, sh)), rwflg, n, bn, j + 1);
        WalkOn(v, v1, Now(), n, bn, j, nb1, nb);
        if nb == 0 {
          Arrived(v, Now(), n, bn, j + 1, nb);
          return NULLBLK;
        }
        sh, j := sh - 8, j + 1;
      }
      Arrived(v, Now(), n, bn, 3, nb);
    }
  }

  /** What the end of a walk means for the caller of bmap. */
  lemma Arrived(v: View, v': View, n: nat, bn: Word, j: nat, nb: Word)
    requires Owns(v') && Walked(v, v', n, bn, j, nb) && (nb == 0 || j == 3)
    ensures Remap(v, v', n, bn, nb) && nb < |v'.disk|
    ensures nb == 0 ==> Map(v', n, bn) == 0 && Missing(v', n, bn) > 0
    ensures nb != 0 ==> Map(v', n, bn) == nb && Missing(v', n, bn) == 0
    ensures Map(v, n, bn) != 0 ==> v' == v
    ensures nb != 0 && Missing(v, n, bn) > 0 ==> nb in v.free && v'.disk[nb] == ZeroBlock()
    ensures Missing(v, n, bn) == 0 <==> Map(v, n, bn) != 0
  {
    WalkStops(v', n, bn, j);
    WalkStops(v, n, bn, j);
    if nb != 0 {
      NodeRole(v', n, bn, j);
    }
  }
}
