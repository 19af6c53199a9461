/** freeblk and f_trunc: giving a file's whole tree of blocks back, while every block freed may be
    overwritten by a free list link (Kernel/filesys.c). */
module Truncate {
  import opened Blocks
  import opened FreeList
  import opened Ownership
  import opened BlockMap

  /** The blocks freeblk frees, in order: the entries of an indirect block from the last to the first,
      then the block itself. */
  ghost function Order(disk: seq<Block>, b: Word, level: nat): seq<Word>
    decreases level, PTRS + 1
  {
    if b == 0 then [] else if level == 0 || b >= |disk| then [b] else Kids(disk, b, level, 0) + [b]
  }

  /** The part of that order under entries 255 down to j. */
  ghost function Kids(disk: seq<Block>, b: Word, level: nat, j: nat): seq<Word>
    requires level > 0 && b < |disk| && j <= PTRS
    decreases level, PTRS - j
  {
    if j == PTRS then [] else Kids(disk, b, level, j + 1) + Order(disk, WordAt(disk[b], j), level - 1)
  }

  /** The blocks f_trunc frees, from slot 19 down to slot k. */
  ghost function SlotsOrder(disk: seq<Block>, addr: seq<Word>, k: nat): seq<Word>
    requires |addr| == SLOTS && k <= SLOTS
    decreases SLOTS - k
  {
    if k == SLOTS then [] else SlotsOrder(disk, addr, k + 1) + Order(disk, addr[k], SlotLevel(k))
  }

  ghost function TruncOrder(disk: seq<Block>, addr: seq<Word>): seq<Word>
    requires |addr| == SLOTS
  {
    SlotsOrder(disk, addr, 0)
  }

  /** The first block of a file is freed last, so that it is the next to be allocated, and the tree of slot 19 first. */
  lemma TruncTop(disk: seq<Block>, addr: seq<Word>)
    requires |addr| == SLOTS
    ensures addr[0] != 0 ==> TruncOrder(disk, addr) != [] && TruncOrder(disk, addr)[|TruncOrder(disk, addr)| - 1] == addr[0]
    ensures Order(disk, addr[19], 2) <= TruncOrder(disk, addr)
  {
    Begins(disk, addr, 0);
  }

  lemma {:induction false} Begins(disk: seq<Block>, addr: seq<Word>, k: nat)
    requires |addr| == SLOTS && k <= 19
    ensures Order(disk, addr[19], 2) <= SlotsOrder(disk, addr, k)
    decreases 19 - k
  {
    if k < 19 {
      Begins(disk, addr, k + 1);
    } else {
      assert SlotsOrder(disk, addr, 20) == [];
    }
  }

  /** The order only depends on blocks that are in it. */
  lemma {:induction false} OrderFrame(disk: seq<Block>, disk': seq<Block>, b: Word, level: nat)
    requires |disk| == |disk'|
    requires forall x :: x in Order(disk, b, level) && x < |disk| ==> disk'[x] == disk[x]
    ensures Order(disk', b, level) == Order(disk, b, level)
    decreases level, PTRS + 1
  {
    if b != 0 && level > 0 && b < |disk| {
      var kids := Kids(disk, b, level, 0);
      assert forall x :: x in kids ==> x in kids + [b];
      assert b in kids + [b];
      KidsFrame(disk, disk', b, level, 0);
    }
  }

  lemma {:induction false} KidsFrame(disk: seq<Block>, disk': seq<Block>, b: Word, level: nat, j: nat)
    requires |disk| == |disk'| && level > 0 && b < |disk| && j <= PTRS
    requires disk'[b] == disk[b]
    requires forall x :: x in Kids(disk, b, level, j) && x < |disk| ==> disk'[x] == disk[x]
    ensures Kids(disk', b, level, j) == Kids(disk, b, level, j)
    decreases level, PTRS - j
  {
    if j < PTRS {
      var done, kid := Kids(disk, b, level, j + 1), Order(disk, WordAt(disk[b], j), level - 1);
      assert forall x :: x in done || x in kid ==> x in done + kid;
      KidsFrame(disk, disk', b, level, j + 1);
      OrderFrame(disk, disk', WordAt(disk[b], j), level - 1);
    }
  }

  lemma DistinctParts<T>(s: seq<T>, t: seq<T>)
    requires Distinct(s + t)
    ensures Distinct(s) && Distinct(t)
    ensures forall x :: x in s ==> x !in t
  {
    assert forall i :: 0 <= i < |s| ==> (s + t)[i] == s[i];
    assert forall i :: 0 <= i < |t| ==> (s + t)[|s| + i] == t[i];
  }

  lemma RangeParts(s: seq<Word>, t: seq<Word>, lo: int, hi: int)
    requires InRange(s + t, lo, hi)
    ensures InRange(s, lo, hi) && InRange(t, lo, hi)
  {
    assert forall i :: 0 <= i < |s| ==> (s + t)[i] == s[i];
    assert forall i :: 0 <= i < |t| ==> (s + t)[|s| + i] == t[i];
  }

  /** The same for the part of a list that comes next. */
  lemma FreeableNext(stack: seq<Word>, all: seq<Word>, done: seq<Word>, kid: seq<Word>, lo: int, hi: int)
    requires Distinct(stack + all) && InRange(all, lo, hi) && done + kid <= all
    ensures Distinct((stack + done) + kid) && InRange(kid, lo, hi) && (stack + done) + kid == stack + (done + kid)
    ensures forall x :: x in kid ==> x !in done
    ensures forall x :: x in done || x in kid ==> x in all
  {
    hide Distinct, InRange;
    var rest := all[|done + kid|..];
    assert all == (done + kid) + rest;
    FreeableParts(stack, done + kid, rest, lo, hi);
    FreeableParts(stack, done, kid, lo, hi);
    assert forall x :: x in done || x in kid ==> x in done + kid;
  }

  /** Only the listed blocks may have been overwritten. */
  ghost predicate Same(disk: seq<Block>, disk': seq<Block>, except: seq<Word>) {
    |disk| == |disk'| && forall b :: 0 <= b < |disk| && b !in except ==> disk'[b] == disk[b]
  }

  /** Overwriting more blocks, all of them listed, adds to the exception list. */
  lemma SameTrans(disk0: seq<Block>, disk1: seq<Block>, disk2: seq<Block>, s: seq<Word>, t: seq<Word>)
    requires Same(disk0, disk1, s) && Same(disk1, disk2, t)
    ensures Same(disk0, disk2, s + t)
  {
    assert forall x :: x in s || x in t ==> x in s + t;
  }

  /** The blocks of this tree are not free, and each is reached once. */
  ghost predicate Freeable(st: Store, order: seq<Word>)
    reads st
  {
    Distinct(st.stack + order) && InRange(order, st.isize, st.fsize)
  }

  lemma FreeableParts(stack: seq<Word>, s: seq<Word>, t: seq<Word>, lo: int, hi: int)
    requires Distinct(stack + (s + t)) && InRange(s + t, lo, hi)
    ensures Distinct(stack + s) && Distinct((stack + s) + t) && InRange(s, lo, hi) && InRange(t, lo, hi)
    ensures (stack + s) + t == stack + (s + t)
    ensures forall x :: x in t ==> x !in stack && x !in s
  {
    assert stack + (s + t) == (stack + s) + t;
    DistinctParts(stack + s, t);
    RangeParts(s, t, lo, hi);
    assert forall x :: x in stack || x in s ==> x in stack + s;
  }

  /** freeblk: free a tree of blocks, reading pointers from blocks that are not free yet. */
  method FreeTree(st: Store, blk: Word, level: nat)
    requires st.Valid()
    requires Freeable(st, Order(st.disk, blk, level))
    modifies st, st.sfree
    ensures st.Valid()
    ensures st.stack == old(st.stack) + Order(old(st.disk), blk, level)
    ensures Same(old(st.disk), st.disk, Order(old(st.disk), blk, level))
    decreases level
  {
    hide Distinct, InRange, Holds, Same;
    ghost var disk, stack, lo, hi := st.disk, st.stack, st.isize, st.fsize;
    SameRefl(disk);
    if blk == 0 {
      return;
    }
    TreeStart(st, blk, level);
    ghost var below := [];
    if level > 0 {
      below := Kids(disk, blk, level, 0);
      var j := 255;
      while j >= 0
        invariant -1 <= j <= 255
        invariant st.Valid()
        invariant st.stack == stack + Kids(disk, blk, level, j + 1)
        invariant Same(disk, st.disk, Kids(disk, blk, level, j + 1))
      {
        ghost var disk1 := st.disk;
        KidsPrefix(disk, blk, level, 0, j);
        NextKid(disk, disk1, stack, below, blk, level, j, lo, hi);
        FreeTree(st, WordAt(st.disk[blk], j), level - 1);
        SameTrans(disk, disk1, st.disk, Kids(disk, blk, level, j + 1), Order(disk, WordAt(disk[blk], j), level - 1));
        j := j - 1;
      }
    }
    ghost var disk2 := st.disk;
    st.BlkFree(blk);
    SameStep(disk2, st.disk, blk);
    SameTrans(disk, disk2, st.disk, below, [blk]);
  }

  lemma SameRefl(disk: seq<Block>)
    ensures Same(disk, disk, [])
  {
  }

  lemma SameStep(disk: seq<Block>, disk': seq<Block>, b: Word)
    requires |disk| == |disk'| && forall x :: 0 <= x < |disk| && x != b ==> disk'[x] == disk[x]
    ensures Same(disk, disk', [b])
  {
  }

  /** Entries below j only add to what entries 255 down to j free. */
  lemma {:induction false} KidsPrefix(disk: seq<Block>, b: Word, level: nat, i: nat, j: nat)
    requires level > 0 && b < |disk| && i <= j <= PTRS
    ensures Kids(disk, b, level, j) <= Kids(disk, b, level, i)
    decreases j - i
  {
    if i < j {
      KidsPrefix(disk, b, level, i + 1, j);
    }
  }

  /** The tree under the next entry: its pointer is still the one that was there at the start, and none
      of its blocks has been freed yet. */
  lemma NextKid(disk: seq<Block>, disk': seq<Block>, stack: seq<Word>, all: seq<Word>,
                b: Word, level: nat, j: nat, lo: int, hi: int)
    requires level > 0 && b < |disk| == |disk'| == hi && j < PTRS
    requires Distinct(stack + all) && InRange(all, lo, hi) && b !in all
    requires Kids(disk, b, level, j) <= all
    requires Same(disk, disk', Kids(disk, b, level, j + 1))
    ensures disk'[b] == disk[b]
    ensures
      var done, kid := Kids(disk, b, level, j + 1), Order(disk, WordAt(disk[b], j), level - 1);
      && Order(disk', WordAt(disk[b], j), level - 1) == kid
      && Distinct((stack + done) + kid) && InRange(kid, lo, hi)
      && (stack + done) + kid == stack + Kids(disk, b, level, j)
      && Kids(disk, b, level, j) == done + kid
  {
    hide Distinct, InRange;
    var done, w := Kids(disk, b, level, j + 1), WordAt(disk[b], j);
    var kid := Order(disk, w, level - 1);
    assert Kids(disk, b, level, j) == done + kid;
    FreeableNext(stack, all, done, kid, lo, hi);
    OrderFrame(disk, disk', w, level - 1);
  }

  lemma TreeStart(st: Store, blk: Word, level: nat)
    requires st.Valid() && blk != 0 && Freeable(st, Order(st.disk, blk, level))
    ensures st.isize <= blk < st.fsize && blk !in st.stack
    ensures level > 0 ==>
      var kids := Kids(st.disk, blk, level, 0);
      blk !in kids && Distinct(st.stack + kids) && InRange(kids, st.isize, st.fsize)
  {
    var order := Order(st.disk, blk, level);
    var k := |order| - 1;
    assert order == order[..k] + [blk];
    assert order[k] == blk;
    FreeableParts(st.stack, order[..k], [blk], st.isize, st.fsize);
  }

  // ---------------------------------------------------------------- whose blocks these are

  /** The owned block at level l, or the last one below it, on the way up from x. */
  ghost function Top(v: View, x: nat, l: nat): nat
    requires Shape(v)
    decreases if x < |v.role| && v.role[x].Owned? then l - v.role[x].level else 0
  {
    if x < |v.role| && v.role[x].Owned? && v.role[x].level < l && v.role[x].cell.Entry? &&
       v.role[x].cell.blk < |v.role| && v.role[v.role[x].cell.blk].Owned? &&
       v.role[v.role[x].cell.blk].level == v.role[x].level + 1
    then Top(v, v.role[x].cell.blk, l) else x
  }

  ghost predicate OwnedUpTo(v: View, x: nat, l: int)
    requires Shape(v)
  {
    x < |v.role| && v.role[x].Owned? && v.role[x].level <= l
  }

  /** The climb to level l passes through the stop at level l - 1. */
  lemma {:induction false} TopUp(v: View, x: nat, l: nat)
    requires Owns(v) && l > 0 && OwnedUpTo(v, x, l - 1)
    ensures
      var w := Top(v, x, l - 1);
      && OwnedUpTo(v, w, l - 1) && Top(v, x, l) == Top(v, w, l)
      && (v.role[w].level < l - 1 ==> v.role[w].cell.Slot?)
      && (v.role[w].cell.Slot? ==> Top(v, w, l) == w)
      && (v.role[w].cell.Entry? ==> Top(v, w, l) == v.role[w].cell.blk && OwnedUpTo(v, v.role[w].cell.blk, l))
    decreases l - v.role[x].level
  {
    assert CellOk(v, v.role[x].cell, v.role[x].level);
    if v.role[x].level < l - 1 && v.role[x].cell.Entry? {
      TopUp(v, v.role[x].cell.blk, l);
    }
  }

  /** x is in the tree whose root is the block b of level l. */
  ghost predicate InTree(v: View, x: nat, b: nat, l: nat)
    requires Shape(v)
  {
    OwnedUpTo(v, x, l) && Top(v, x, l) == b
  }

  /** x is under an entry j..k-1 of the indirect block b. */
  ghost predicate UnderEntries(v: View, x: nat, b: nat, l: nat, j: nat, k: nat)
    requires Shape(v) && l > 0
  {
    OwnedUpTo(v, x, l - 1) &&
    var w := Top(v, x, l - 1);
    w < |v.role| && v.role[w].Owned? && v.role[w].level == l - 1 &&
    v.role[w].cell.Entry? && v.role[w].cell.blk == b && j <= v.role[w].cell.i < k
  }

  ghost predicate UnderEntry(v: View, x: nat, b: nat, l: nat, j: nat)
    requires Shape(v) && l > 0
  {
    UnderEntries(v, x, b, l, j, j + 1)
  }

  lemma DistinctConcat<T>(s: seq<T>, t: seq<T>)
    requires Distinct(s) && Distinct(t) && forall x :: x in s ==> x !in t
    ensures Distinct(s + t)
  {
    forall i, j | 0 <= i < j < |s + t|
      ensures (s + t)[i] != (s + t)[j]
    {
      assert i < |s| ==> (s + t)[i] in s;
    }
  }

  /** A block is in the tree of b just when it is b or is under one of b's entries. */
  lemma TreeSplit(v: View, x: nat, b: nat, l: nat)
    requires Owns(v) && l > 0 && b < |v.role| && v.role[b].Owned? && v.role[b].level == l
    ensures InTree(v, x, b, l) <==> x == b || UnderEntries(v, x, b, l, 0, PTRS)
    ensures !UnderEntries(v, b, b, l, 0, PTRS)
  {
    if OwnedUpTo(v, x, l - 1) {
      TopUp(v, x, l);
      var w := Top(v, x, l - 1);
      assert CellOk(v, v.role[w].cell, v.role[w].level);
    }
  }

  /** Freeing the tree under b frees exactly the blocks of that tree, each once. */
  lemma {:induction false} OrderIs(v: View, b: Word, l: nat)
    requires Owns(v) && OwnedUpTo(v, b, l) && v.role[b].level == l
    ensures forall x: Word :: x in Order(v.disk, b, l) <==> InTree(v, x, b, l)
    ensures Distinct(Order(v.disk, b, l))
    decreases l, PTRS + 1
  {
    if l > 0 {
      KidsAre(v, b, l, 0);
      var kids := Kids(v.disk, b, l, 0);
      forall x: Word
        ensures x in kids + [b] <==> InTree(v, x, b, l)
      {
        TreeSplit(v, x, b, l);
      }
      TreeSplit(v, b, b, l);
      DistinctConcat(kids, [b]);
      assert Order(v.disk, b, l) == kids + [b];
    }
  }

  lemma {:induction false} KidsAre(v: View, b: Word, l: nat, j: nat)
    requires Owns(v) && OwnedUpTo(v, b, l) && v.role[b].level == l > 0 && j <= PTRS
    ensures forall x: Word :: x in Kids(v.disk, b, l, j) <==> UnderEntries(v, x, b, l, j, PTRS)
    ensures Distinct(Kids(v.disk, b, l, j))
    decreases l, PTRS - j
  {
    if j < PTRS {
      KidsAre(v, b, l, j + 1);
      KidIs(v, b, l, j);
      var done, kid := Kids(v.disk, b, l, j + 1), Order(v.disk, WordAt(v.disk[b], j), l - 1);
      forall x: Word
        ensures x in done + kid <==> UnderEntries(v, x, b, l, j, PTRS)
        ensures !(x in done && x in kid)
      {
        EntriesSplit(v, x, b, l, j);
        assert x in done <==> UnderEntries(v, x, b, l, j + 1, PTRS);
        assert x in kid <==> UnderEntry(v, x, b, l, j);
      }
      DistinctConcat(done, kid);
    }
  }

  lemma EntriesSplit(v: View, x: nat, b: nat, l: nat, j: nat)
    requires Shape(v) && l > 0 && j < PTRS
    ensures UnderEntries(v, x, b, l, j, PTRS)
      <==> UnderEntries(v, x, b, l, j + 1, PTRS) || UnderEntries(v, x, b, l, j, j + 1)
    ensures !(UnderEntries(v, x, b, l, j + 1, PTRS) && UnderEntries(v, x, b, l, j, j + 1))
  {
  }

  /** The blocks freed under entry j alone. */
  lemma {:induction false} KidIs(v: View, b: Word, l: nat, j: nat)
    requires Owns(v) && OwnedUpTo(v, b, l) && v.role[b].level == l > 0 && j < PTRS
    ensures forall x: Word :: x in Order(v.disk, WordAt(v.disk[b], j), l - 1) <==> UnderEntry(v, x, b, l, j)
    ensures Distinct(Order(v.disk, WordAt(v.disk[b], j), l - 1))
    decreases l, 0
  {
    var w := WordAt(v.disk[b], j);
    if w != 0 {
      assert Is(v.role, w, Entry(b, j), l - 1);
      OrderIs(v, w, l - 1);
    }
    forall x: Word
      ensures UnderEntry(v, x, b, l, j) <==> w != 0 && InTree(v, x, w, l - 1)
    {
      if UnderEntry(v, x, b, l, j) {
        var t := Top(v, x, l - 1);
        assert CellOk(v, v.role[t].cell, v.role[t].level) && CellValue(v, v.role[t].cell) == t;
      }
    }
  }

  /** Inode n owns block x: the way up from x ends at one of n's slots. */
  ghost predicate OwnedBy(v: View, x: nat, n: nat)
    requires Shape(v)
  {
    OwnedUpTo(v, x, 2) && Top(v, x, 2) < |v.role| &&
    var r := v.role[Top(v, x, 2)]; r.Owned? && r.cell.Slot? && r.cell.ino == n
  }

  lemma {:induction false} TopGrows(v: View, x: nat, l: nat)
    requires Owns(v) && OwnedUpTo(v, x, l)
    ensures var w := Top(v, x, l);
      OwnedUpTo(v, w, l) && (w == x || v.role[x].level < v.role[w].level)
      && (v.role[w].level < l ==> v.role[w].cell.Slot?)
    decreases l - v.role[x].level
  {
    assert CellOk(v, v.role[x].cell, v.role[x].level);
    if v.role[x].level < l && v.role[x].cell.Entry? {
      TopGrows(v, v.role[x].cell.blk, l);
    }
  }

  /** Every owned block belongs to exactly one inode, and pointers stay inside one inode. */
  lemma OwnerExists(v: View, x: nat)
    requires Owns(v) && x < |v.role| && v.role[x].Owned?
    ensures exists n :: 0 <= n < |v.inodes| && OwnedBy(v, x, n)
    ensures v.role[x].cell.Entry? ==>
      v.role[x].cell.blk < |v.role| && forall n: nat :: OwnedBy(v, x, n) <==> OwnedBy(v, v.role[x].cell.blk, n)
    ensures v.role[x].cell.Slot? ==> forall n: nat :: OwnedBy(v, x, n) <==> n == v.role[x].cell.ino
  {
    assert CellOk(v, v.role[x].cell, v.role[x].level);
    TopGrows(v, x, 2);
    var w := Top(v, x, 2);
    assert CellOk(v, v.role[w].cell, v.role[w].level);
    assert OwnedBy(v, x, v.role[w].cell.ino);
  }

  /** Inode n owns block x through a slot in k..k'-1. */
  ghost predicate OwnedThrough(v: View, x: nat, n: nat, k: nat, k': nat)
    requires Shape(v)
  {
    OwnedBy(v, x, n) && k <= v.role[Top(v, x, 2)].cell.k < k'
  }

  /** The blocks under one slot. */
  lemma SlotIs(v: View, n: nat, k: nat, x: Word)
    requires Owns(v) && n < |v.inodes| && k < SLOTS
    ensures Distinct(Order(v.disk, v.inodes[n].addr[k], SlotLevel(k)))
    ensures x in Order(v.disk, v.inodes[n].addr[k], SlotLevel(k)) <==> OwnedThrough(v, x, n, k, k + 1)
  {
    var b, l := v.inodes[n].addr[k], SlotLevel(k);
    assert b != 0 ==> Is(v.role, b, Slot(n, k), l);
    hide Top, Order, EntriesOk;
    if b != 0 {
      OrderIs(v, b, l);
    }
    if x < |v.role| && v.role[x].Owned? {
      TopAtRoot(v, x, l);
      var r := Top(v, x, 2);
      assert CellOk(v, v.role[r].cell, v.role[r].level) && CellValue(v, v.role[r].cell) == r;
    }
  }

  /** The climb to the level of its root, or to the top, ends at the root. */
  lemma TopAtRoot(v: View, x: nat, l: nat)
    requires Owns(v) && x < |v.role| && v.role[x].Owned? && l <= 2
    ensures
      var r := Top(v, x, 2);
      && OwnedUpTo(v, x, 2) && OwnedUpTo(v, r, 2) && v.role[r].cell.Slot? && v.role[x].level <= v.role[r].level
      && (v.role[r].level == l ==> OwnedUpTo(v, x, l) && Top(v, x, l) == r)
    ensures
      var w := Top(v, x, l);
      OwnedUpTo(v, x, l) && w < |v.role| && v.role[w].Owned? && v.role[w].cell.Slot? ==> w == Top(v, x, 2)
  {
    OwnerExists(v, x);
    TopGrows(v, x, 2);
    if OwnedUpTo(v, x, 1) {
      TopUp(v, x, 2);
      TopGrows(v, x, 1);
      if OwnedUpTo(v, x, 0) {
        TopUp(v, x, 1);
        TopGrows(v, x, 0);
      }
    }
  }

  /** The blocks under slots 19 down to k, each freed once. */
  lemma {:induction false} SlotsAre(v: View, n: nat, k: nat)
    requires Owns(v) && n < |v.inodes| && k <= SLOTS
    ensures Distinct(SlotsOrder(v.disk, v.inodes[n].addr, k))
    ensures forall x: Word :: x in SlotsOrder(v.disk, v.inodes[n].addr, k) <==> OwnedThrough(v, x, n, k, SLOTS)
    decreases SLOTS - k
  {
    hide OwnedBy, SlotsOk, EntriesOk, BackOk, FreeOk, Order;
    if k == SLOTS {
      SlotIs(v, n, 0, 0);
    } else {
      SlotsAre(v, n, k + 1);
      var a := v.inodes[n].addr;
      var done, tree := SlotsOrder(v.disk, a, k + 1), Order(v.disk, a[k], SlotLevel(k));
      forall x: Word
        ensures x in done + tree <==> OwnedThrough(v, x, n, k, SLOTS)
        ensures !(x in done && x in tree)
      {
        SlotIs(v, n, k, x);
        assert x in done <==> OwnedThrough(v, x, n, k + 1, SLOTS);
      }
      SlotIs(v, n, k, 0);
      DistinctConcat(done, tree);
    }
  }

  /** f_trunc frees exactly the blocks the inode owns, each once. */
  lemma TruncIs(v: View, n: nat)
    requires Owns(v) && n < |v.inodes|
    ensures forall x: Word :: x in TruncOrder(v.disk, v.inodes[n].addr) <==> OwnedBy(v, x, n)
    ensures Distinct(TruncOrder(v.disk, v.inodes[n].addr))
  {
    SlotsAre(v, n, 0);
    forall x: Word
      ensures OwnedThrough(v, x, n, 0, SLOTS) <==> OwnedBy(v, x, n)
    {
      if OwnedBy(v, x, n) {
        assert CellOk(v, v.role[Top(v, x, 2)].cell, v.role[Top(v, x, 2)].level);
      }
    }
  }

  /** Every block past the inode area is on the free list once and named by no file, or is not on the
      free list, is named by exactly one pointer cell and belongs to exactly one file. */
  lemma Partition(v: View, b: nat)
    requires Owns(v) && Distinct(v.free) && v.isize <= b < |v.disk|
    ensures b in v.free <==> !exists n: nat :: n < |v.inodes| && OwnedBy(v, b, n)
    ensures forall i, j :: 0 <= i < |v.free| && 0 <= j < |v.free| && v.free[i] == v.free[j] == b ==> i == j
    ensures b in v.free ==> forall c, l :: CellOk(v, c, l) ==> CellValue(v, c) != b
    ensures b !in v.free ==>
      exists c, l :: CellOk(v, c, l) && CellValue(v, c) == b &&
        forall c', l' :: CellOk(v, c', l') && CellValue(v, c') == b ==> c' == c
    ensures forall n: nat, m: nat :: OwnedBy(v, b, n) && OwnedBy(v, b, m) ==> n == m
  {
    forall c, l: nat | CellOk(v, c, l) && CellValue(v, c) == b
      ensures Is(v.role, b, c, l)
    {
      match c
      case Slot(n, k) => assert Is(v.role, v.inodes[n].addr[k], Slot(n, k), SlotLevel(k));
      case Entry(p, i) => assert Is(v.role, WordAt(v.disk[p], i), Entry(p, i), v.role[p].level - 1);
    }
    if b !in v.free {
      OwnerExists(v, b);
      assert CellOk(v, v.role[b].cell, v.role[b].level) && CellValue(v, v.role[b].cell) == b;
    }
  }

  // ---------------------------------------------------------------- f_trunc

  /** The state after truncation: the inode is empty and its blocks are on the free list. */
  ghost function Truncated(v: View, n: nat, order: seq<Word>, disk': seq<Block>): (v': View)
    requires Shape(v) && n < |v.inodes| && |disk'| == |v.disk|
    ensures |v'.role| == |v.role| && |v'.inodes| == |v.inodes|
  {
    View(v.isize, disk', v.inodes[n := v.inodes[n].(addr := seq(SLOTS, _ => 0), size := 0)], v.free + order,
         seq(|v.role|, b requires 0 <= b < |v.role| => if b in order then Free else v.role[b]))
  }

  /** order lists the blocks of inode n, and only they have been overwritten. */
  ghost predicate Released(v: View, n: nat, order: seq<Word>, disk': seq<Block>) {
    && Owns(v) && n < |v.inodes|
    && (forall x: Word :: x in order <==> OwnedBy(v, x, n))
    && Same(v.disk, disk', order)
  }

  lemma OwnedInRange(v: View, x: nat, n: nat)
    requires Owns(v) && OwnedBy(v, x, n)
    ensures v.isize <= x < |v.disk| && x !in v.free
  {
  }

  lemma TruncFreeable(v: View, n: nat)
    requires Owns(v) && Distinct(v.free) && n < |v.inodes|
    ensures var order := TruncOrder(v.disk, v.inodes[n].addr);
      Distinct(v.free + order) && InRange(order, v.isize, |v.disk|)
  {
    TruncIs(v, n);
    var order := TruncOrder(v.disk, v.inodes[n].addr);
    hide TruncOrder, OwnedBy, Owns;
    forall x: Word | x in order
      ensures x !in v.free && v.isize <= x < |v.disk|
    {
      OwnedInRange(v, x, n);
    }
    DistinctConcat(v.free, order);
    assert forall i :: 0 <= i < |order| ==> order[i] in order;
  }

  lemma TruncFree(v: View, n: nat, order: seq<Word>, disk': seq<Block>)
    requires Released(v, n, order, disk')
    ensures Shape(Truncated(v, n, order, disk')) && FreeOk(Truncated(v, n, order, disk'))
  {
    var v' := Truncated(v, n, order, disk');
    hide OwnedBy, SlotsOk, EntriesOk, BackOk;
    forall x: Word | x in order
      ensures v.isize <= x < |v.disk|
    {
      OwnedInRange(v, x, n);
    }
    forall i | 0 <= i < |v'.free|
      ensures v.isize <= v'.free[i] < |v.role|
    {
      assert i >= |v.free| ==> v'.free[i] in order;
    }
    assert forall b :: b in v'.free <==> b in v.free || b in order;
  }

  lemma TruncSlots(v: View, n: nat, order: seq<Word>, disk': seq<Block>)
    requires Released(v, n, order, disk')
    ensures Shape(Truncated(v, n, order, disk')) && SlotsOk(Truncated(v, n, order, disk'))
  {
    var v' := Truncated(v, n, order, disk');
    hide OwnedBy, EntriesOk, BackOk, FreeOk;
    forall m: nat, k: nat | m < |v'.inodes| && k < SLOTS && v'.inodes[m].addr[k] != 0
      ensures Is(v'.role, v'.inodes[m].addr[k], Slot(m, k), SlotLevel(k))
    {
      var x := v.inodes[m].addr[k];
      assert Is(v.role, x, Slot(m, k), SlotLevel(k));
      OwnerExists(v, x);
    }
  }

  lemma TruncEntries(v: View, n: nat, order: seq<Word>, disk': seq<Block>)
    requires Released(v, n, order, disk')
    ensures Shape(Truncated(v, n, order, disk')) && EntriesOk(Truncated(v, n, order, disk'))
  {
    var v' := Truncated(v, n, order, disk');
    hide OwnedBy, SlotsOk, BackOk, FreeOk;
    forall b: nat, i: nat |
      b < |v'.role| && v'.role[b].Owned? && v'.role[b].level > 0 && i < PTRS && WordAt(v'.disk[b], i) != 0
      ensures Is(v'.role, WordAt(v'.disk[b], i), Entry(b, i), v'.role[b].level - 1)
    {
      var x := WordAt(v.disk[b], i);
      assert Is(v.role, x, Entry(b, i), v.role[b].level - 1);
      OwnerExists(v, x);
      assert OwnedBy(v, x, n) <==> OwnedBy(v, b, n);
    }
  }

  lemma TruncBack(v: View, n: nat, order: seq<Word>, disk': seq<Block>)
    requires Released(v, n, order, disk')
    ensures Shape(Truncated(v, n, order, disk')) && BackOk(Truncated(v, n, order, disk'))
  {
    var v' := Truncated(v, n, order, disk');
    hide OwnedBy, SlotsOk, EntriesOk, FreeOk;
    forall b: nat | b < |v'.role| && v'.role[b].Owned?
      ensures CellOk(v', v'.role[b].cell, v'.role[b].level) && CellValue(v', v'.role[b].cell) == b && v'.role[b].level <= 2
    {
      assert CellOk(v, v.role[b].cell, v.role[b].level) && CellValue(v, v.role[b].cell) == b;
      OwnerExists(v, b);
      if v.role[b].cell.Entry? {
        assert !OwnedBy(v, v.role[b].cell.blk, n);
      }
    }
  }

  /** After truncation every block is again either free or owned once. */
  lemma TruncOwns(v: View, n: nat, order: seq<Word>, disk': seq<Block>)
    requires Released(v, n, order, disk')
    ensures Owns(Truncated(v, n, order, disk'))
  {
    TruncFree(v, n, order, disk');
    TruncSlots(v, n, order, disk');
    TruncEntries(v, n, order, disk');
    TruncBack(v, n, order, disk');
  }

  /** Slots 19 down to k of the original file have been dealt with. */
  ghost predicate SlotsFreed(v: View, a: seq<Word>, k: nat, disk: seq<Block>, stack: seq<Word>)
    requires |a| == SLOTS && k <= SLOTS
  {
    && stack == v.free + SlotsOrder(v.disk, a, k)
    && Same(v.disk, disk, SlotsOrder(v.disk, a, k))
    && Distinct(v.free + TruncOrder(v.disk, a)) && InRange(TruncOrder(v.disk, a), v.isize, |v.disk|)
  }

  lemma FreeStart(v: View, n: nat)
    requires Owns(v) && Distinct(v.free) && n < |v.inodes|
    ensures SlotsFreed(v, v.inodes[n].addr, SLOTS, v.disk, v.free)
  {
    TruncFreeable(v, n);
  }

  lemma FreeDone(v: View, n: nat, disk: seq<Block>, stack: seq<Word>)
    requires Owns(v) && n < |v.inodes| && SlotsFreed(v, v.inodes[n].addr, 0, disk, stack)
    ensures var order := TruncOrder(v.disk, v.inodes[n].addr);
      Same(v.disk, disk, order) && stack == v.free + order && Owns(Truncated(v, n, order, disk))
  {
    TruncIs(v, n);
    TruncOwns(v, n, TruncOrder(v.disk, v.inodes[n].addr), disk);
  }

  /** f_trunc: free the double indirect tree, the single indirect tree, then the direct blocks, and
      empty the inode.  Nothing happens on a read-only file system. */
  method Trunc(fs: Fs, n: nat, readOnly: bool) returns (ok: bool)
    requires fs.Valid() && n < |fs.inodes|
    modifies fs, fs.st, fs.st.sfree
    ensures fs.Valid()
    ensures ok == !readOnly
    ensures readOnly ==> fs.Now() == old(fs.Now())
    ensures ok ==>
      var order := TruncOrder(old(fs.st.disk), old(fs.inodes[n].addr));
      && Same(old(fs.st.disk), fs.st.disk, order)
      && fs.Now() == Truncated(old(fs.Now()), n, order, fs.st.disk)
  {
    hide SlotsFreed, Holds, Distinct, InRange, Same, SlotsOk, EntriesOk, BackOk, FreeOk, TruncOrder;
    if readOnly {
      return false;
    }
    var st, a := fs.st, fs.inodes[n].addr;
    ghost var v := fs.Now();
    FreeStart(v, n);
    FreeSlot(st, a, 19, 2, v);
    FreeSlot(st, a, 18, 1, v);
    var j := 17;
    while j >= 0
      invariant -1 <= j <= 17 && fs.inodes == v.inodes
      invariant st.Valid() && SlotsFreed(v, a, j + 1, st.disk, st.stack)
    {
      FreeSlot(st, a, j, 0, v);
      j := j - 1;
    }
    FreeDone(v, n, st.disk, st.stack);
    fs.inodes := fs.inodes[n := fs.inodes[n].(addr := seq(SLOTS, _ => 0), size := 0)];
    fs.role := Truncated(v, n, TruncOrder(v.disk, a), st.disk).role;
    ok := true;
  }

  /** freeblk on one slot: the blocks under it have not been overwritten, whatever was freed before. */
  method FreeSlot(st: Store, a: seq<Word>, k: nat, level: nat, ghost v: View)
    requires st.Valid() && |a| == SLOTS && k < SLOTS && level == SlotLevel(k)
    requires v.isize == st.isize && |v.disk| == st.fsize && SlotsFreed(v, a, k + 1, st.disk, st.stack)
    modifies st, st.sfree
    ensures st.Valid() && SlotsFreed(v, a, k, st.disk, st.stack)
  {
    hide Distinct, InRange, Holds, Same, Order;
    ghost var disk1, done, tree := st.disk, SlotsOrder(v.disk, a, k + 1), Order(v.disk, a[k], level);
    SlotsPrefix(v.disk, a, 0, k);
    FreeableNext(v.free, TruncOrder(v.disk, a), done, tree, v.isize, |v.disk|);
    TreeApart(v.disk, disk1, done, a[k], level);
    FreeTree(st, a[k], level);
    SameTrans(v.disk, disk1, st.disk, done, tree);
  }

  lemma {:induction false} SlotsPrefix(disk: seq<Block>, a: seq<Word>, i: nat, j: nat)
    requires |a| == SLOTS && i <= j <= SLOTS
    ensures SlotsOrder(disk, a, j) <= SlotsOrder(disk, a, i)
    decreases j - i
  {
    if i < j {
      SlotsPrefix(disk, a, i + 1, j);
    }
  }

  /** A tree none of whose blocks has been overwritten still has the same blocks. */
  lemma TreeApart(disk: seq<Block>, disk': seq<Block>, done: seq<Word>, b: Word, level: nat)
    requires Same(disk, disk', done)
    requires forall x :: x in Order(disk, b, level) ==> x !in done
    ensures Order(disk', b, level) == Order(disk, b, level)
  {
    OrderFrame(disk, disk', b, level);
  }
}
