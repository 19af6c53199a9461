/** Banked memory with swapping, as the kernel runs it (Kernel/bank16k.c, Kernel/swap.c): processes lose and get
    back their banks, and none of them can tell. */
module Swapping {
  import opened Banks
  import opened Victims

  /** Everything at one moment; need says of how many banks each process is. */
  datatype World = World(free: seq<Byte>, spare: seq<Byte>, ptab: seq<Proc>, st: Store, owner: map<Byte, Owner>,
                         slots: map<Byte, SlotState>, swapped: set<nat>, need: map<nat, nat>)

  ghost predicate Ok(w: World) {
    && PagesOk(w.free, w.ptab, w.owner) && SlotsOk(w.spare, w.ptab, w.slots, w.swapped) && StoreOk(w.st, w.owner)
    && (forall p :: 0 <= p < |w.ptab| && Resident(w.ptab[p]) ==> InOk(w, p))
    && (forall p :: p in w.swapped ==> AwayOk(w, p))
  }

  predicate InOk(w: World, p: nat)
    requires p < |w.ptab|
  {
    p in w.need && Shape(w.ptab[p].ptr, w.need[p])
  }

  ghost predicate AwayOk(w: World, p: nat) {
    && p in w.need && 1 <= w.need[p] <= 4 && p < |w.ptab| && !Resident(w.ptab[p]) && Page2(w.ptab[p]) < 256
    && |w.st.disk| == 256 * w.st.ss && Repeats(OnDisk(w.st.disk, w.st.ss, Page2(w.ptab[p])), w.st.sb, w.need[p])
  }

  ghost predicate Live(w: World, p: nat) {
    p < |w.ptab| && (Resident(w.ptab[p]) || p in w.swapped)
  }

  /** The memory of a process, wherever it is. */
  ghost function Space(w: World, p: nat): seq<Blk>
    requires Ok(w) && Live(w, p)
  {
    if Resident(w.ptab[p]) then
      MapIsMapped(w, p);
      InMemory(w.st, w.ptab[p].ptr)
    else
      assert AwayOk(w, p);
      OnDisk(w.st.disk, w.st.ss, Page2(w.ptab[p]))
  }

  lemma MapIsMapped(w: World, p: nat)
    requires PagesOk(w.free, w.ptab, w.owner) && StoreOk(w.st, w.owner) && p < |w.ptab| && Resident(w.ptab[p])
    ensures Mapped(w.st, w.ptab[p].ptr)
  {
    assert MapOk(w.ptab, w.owner, p);
  }

  /** No process other than one can tell w from w', and no other process comes up. */
  ghost predicate Unnoticed(w: World, w': World, but: int) {
    && Ok(w) && Ok(w')
    && (forall p :: Live(w, p) && p != but ==> Same(w, w', p))
    && (forall p :: Live(w', p) && p != but ==> Live(w, p))
  }

  ghost predicate Same(w: World, w': World, p: nat)
    requires Ok(w) && Ok(w') && Live(w, p)
  {
    Live(w', p) && Space(w', p) == Space(w, p) && p in w.need && p in w'.need && w'.need[p] == w.need[p]
  }

  lemma Trans(a: World, b: World, c: World, but: int)
    requires Unnoticed(a, b, but) && Unnoticed(b, c, but)
    ensures Unnoticed(a, c, but)
  {
    forall p | Live(a, p) && p != but ensures Same(a, c, p) {
      assert Same(a, b, p);
      assert Same(b, c, p);
    }
  }

  // ------------------------------------------------------------------ swapping out

  function WroteOut(w: World, p: nat, slot: Byte, k: nat, space: seq<Blk>): World
    requires p < |w.ptab| && k <= 4 && w.spare != [] && |w.st.disk| == 256 * w.st.ss && |space| == w.st.ss
  {
    SlotInDisk(slot, w.st.ss);
    World(w.free + w.ptab[p].ptr[..k], w.spare[..|w.spare| - 1], w.ptab[p := Swapped(w.ptab[p], slot)],
          w.st.(disk := Splice(w.st.disk, slot * w.st.ss, space)), FreedOwner(w.owner, w.free, w.ptab[p].ptr[..k]),
          w.slots[slot := Holds(p)], w.swapped + {p}, w.need)
  }

  lemma DiskSlot(st: Store, slot: nat, space: seq<Blk>, t: nat)
    requires slot < 256 && t < 256 && |st.disk| == 256 * st.ss && |space| == st.ss
    ensures slot * st.ss + st.ss <= 256 * st.ss
    ensures OnDisk(Splice(st.disk, slot * st.ss, space), st.ss, t) == if t == slot then space else OnDisk(st.disk, st.ss, t)
  {
    SlotInDisk(slot, st.ss);
    SlotInDisk(t, st.ss);
    if t != slot {
      SlotsApart(slot, t, st.ss);
    }
  }

  lemma WroteOutOk(w: World, p: nat)
    requires Ok(w) && p < |w.ptab| && Resident(w.ptab[p]) && w.spare != []
    ensures InOk(w, p) && Mapped(w.st, w.ptab[p].ptr) && |w.free| + w.need[p] <= |w.owner|
    ensures
      var w' := WroteOut(w, p, w.spare[|w.spare| - 1], w.need[p], InMemory(w.st, w.ptab[p].ptr));
      Unnoticed(w, w', -1) && p in w'.swapped && !Resident(w'.ptab[p])
  {
    hide PagesOk, SlotsOk, Shape, Repeats, InMemory;
    MapIsMapped(w, p);
    assert InOk(w, p);
    var k, slot, space := w.need[p], w.spare[|w.spare| - 1], InMemory(w.st, w.ptab[p].ptr);
    ShapeSize(w.ptab[p].ptr, k);
    var w' := WroteOut(w, p, slot, k, space);
    RoomToFree(w.free, w.ptab, w.owner, p, k);
    FreePages(w.free, w.ptab, w.owner, p, k, slot);
    TakeSlot(w.spare, w.ptab, w.slots, w.swapped, p);
    MemoryRepeats(w.st, w.ptab[p].ptr, k);
    DiskSlot(w.st, slot, space, slot);
    forall q | q in w'.swapped ensures AwayOk(w', q) {
      if q != p {
        OthersAway(w, p, q, slot, k, space);
      }
    }
    forall q | 0 <= q < |w'.ptab| && Resident(w'.ptab[q]) ensures InOk(w', q) {
      assert InOk(w, q);
    }
    forall q: nat | Live(w, q) ensures Same(w, w', q) {
      if q == p {
        assert AwayOk(w', p);
      } else if q in w.swapped {
        OthersAway(w, p, q, slot, k, space);
      } else {
        assert InOk(w, q) && InOk(w', q);
        MapIsMapped(w, q);
        SameMemory(w.st, w'.st, w.ptab[q].ptr);
      }
    }
  }

  lemma ShapeSize(m: Map, k: nat)
    requires Shape(m, k)
    ensures 1 <= k <= 4
  {
  }

  lemma SameMemory(st: Store, st': Store, m: Map)
    requires Mapped(st, m) && st'.sb == st.sb && st'.ss == st.ss
    requires forall i :: 0 <= i < 4 ==> m[i] in st'.mem && st'.mem[m[i]] == st.mem[m[i]]
    ensures Mapped(st', m) && InMemory(st', m) == InMemory(st, m)
  {
  }

  /** The other slots keep what they hold. */
  lemma OthersAway(w: World, p: nat, q: nat, slot: Byte, k: nat, space: seq<Blk>)
    requires Ok(w) && p < |w.ptab| && Resident(w.ptab[p]) && w.spare != [] && slot == w.spare[|w.spare| - 1]
    requires k <= 4 && |space| == w.st.ss && q in w.swapped && q != p
    ensures AwayOk(w, q) && AwayOk(WroteOut(w, p, slot, k, space), q)
    ensures var w' := WroteOut(w, p, slot, k, space); OnDisk(w'.st.disk, w'.st.ss, Page2(w.ptab[q])) == OnDisk(w.st.disk, w.st.ss, Page2(w.ptab[q]))
  {
    assert AwayOk(w, q) && OutOk(w.ptab, w.slots, q);
    assert w.slots[slot] == Spare(|w.spare| - 1);
    DiskSlot(w.st, slot, space, Page2(w.ptab[q]));
  }

  // ------------------------------------------------------------------ getting memory

  function Taken(w: World, p: nat, k: nat): World
    requires p < |w.ptab| && 1 <= k <= 4 && k <= |w.free| && (p in w.swapped ==> Page2(w.ptab[p]) < 256)
  {
    var m := Popped(w.free, k);
    World(w.free[..|w.free| - k], w.spare, w.ptab[p := w.ptab[p].(ptr := m)], w.st, TakenOwner(w.owner, m, p),
          if p in w.swapped then w.slots[Page2(w.ptab[p]) := Moving] else w.slots, w.swapped - {p}, w.need[p := k])
  }

  lemma TakenOk(w: World, p: nat, k: nat)
    requires Ok(w) && p < |w.ptab| && !Resident(w.ptab[p]) && 1 <= k <= 4 && k <= |w.free|
    ensures p in w.swapped ==> Page2(w.ptab[p]) < 256
    ensures var w' := Taken(w, p, k); Unnoticed(w, w', p) && Resident(w'.ptab[p]) && InOk(w', p)
  {
    hide PagesOk, SlotsOk, Shape, Repeats, InMemory, Popped, TakenOwner;
    assert p in w.swapped ==> AwayOk(w, p);
    var w', m := Taken(w, p, k), Popped(w.free, k);
    TakePages(w.free, w.ptab, w.owner, p, k);
    TakenKeys(w.owner, m, p);
    if p in w.swapped {
      LeaveSlot(w.spare, w.ptab, w.slots, w.swapped, p, m);
    } else {
      SlotsKeep(w.spare, w.ptab, w.slots, w.swapped, p, w'.ptab[p]);
      assert w.swapped - {p} == w.swapped;
    }
    forall q | 0 <= q < |w'.ptab| && Resident(w'.ptab[q]) ensures InOk(w', q) {
      assert q != p ==> InOk(w, q);
    }
    forall q | q in w'.swapped ensures AwayOk(w', q) {
      assert AwayOk(w, q);
    }
    forall q: nat | Live(w, q) && q != p ensures Same(w, w', q) {
      if q in w.swapped {
        assert AwayOk(w, q) && AwayOk(w', q);
      } else {
        assert InOk(w, q);
        MapIsMapped(w, q);
      }
    }
  }

  lemma TakenKeys(owner: map<Byte, Owner>, m: seq<Byte>, p: nat)
    ensures TakenOwner(owner, m, p).Keys == owner.Keys
  {
  }

  // ------------------------------------------------------------------ swapping in

  /** New contents for the banks of one process. */
  lemma ReadInOk(w: World, p: nat, st: Store)
    requires Ok(w) && p < |w.ptab| && Resident(w.ptab[p])
    requires st.disk == w.st.disk && st.sb == w.st.sb && st.ss == w.st.ss && st.mem.Keys == w.st.mem.Keys
    requires forall x :: x in w.st.mem && x !in w.ptab[p].ptr ==> st.mem[x] == w.st.mem[x]
    requires Mapped(st, w.ptab[p].ptr)
    ensures Unnoticed(w, w.(st := st), p) && Space(w.(st := st), p) == InMemory(st, w.ptab[p].ptr)
  {
    hide PagesOk, SlotsOk, Shape, Repeats, InMemory;
    var w' := w.(st := st);
    PagesHave(w, p, st);
    forall q | 0 <= q < |w'.ptab| && Resident(w'.ptab[q]) ensures InOk(w', q) {
      assert InOk(w, q);
    }
    forall q | q in w'.swapped ensures AwayOk(w', q) {
      assert AwayOk(w, q);
    }
    forall q: nat | Live(w, q) && q != p ensures Same(w, w', q) {
      if q in w.swapped {
        assert AwayOk(w, q) && AwayOk(w', q);
      } else {
        assert InOk(w, q);
        MapIsMapped(w, q);
        OtherPages(w, p, q);
        SameMemory(w.st, st, w.ptab[q].ptr);
      }
    }
  }

  lemma PagesHave(w: World, p: nat, st: Store)
    requires Ok(w) && p < |w.ptab| && st.sb == w.st.sb && st.ss == w.st.ss && st.disk == w.st.disk
    requires st.mem.Keys == w.st.mem.Keys && Mapped(st, w.ptab[p].ptr)
    requires forall x :: x in w.st.mem && x !in w.ptab[p].ptr ==> st.mem[x] == w.st.mem[x]
    ensures StoreOk(st, w.owner)
  {
    forall x | x in w.owner ensures x in st.mem && |st.mem[x]| == BANK {
      assert x in w.st.mem;
    }
  }

  lemma OtherPages(w: World, p: nat, q: nat)
    requires PagesOk(w.free, w.ptab, w.owner) && p < |w.ptab| && q < |w.ptab| && p != q && Resident(w.ptab[p]) && Resident(w.ptab[q])
    ensures forall i :: 0 <= i < 4 ==> w.ptab[q].ptr[i] !in w.ptab[p].ptr
  {
    assert MapOk(w.ptab, w.owner, p) && MapOk(w.ptab, w.owner, q);
  }

  lemma ReturnedOk(w: World, slot: Byte)
    requires Ok(w) && slot in w.slots && w.slots[slot] == Moving
    ensures var w' := w.(spare := w.spare + [slot], slots := w.slots[slot := Spare(|w.spare|)]); Unnoticed(w, w', -1)
    ensures |w.spare| + 1 <= |w.slots|
  {
    hide PagesOk, SlotsOk, Shape, Repeats, InMemory;
    var w' := w.(spare := w.spare + [slot], slots := w.slots[slot := Spare(|w.spare|)]);
    ReturnSlot(w.spare, w.ptab, w.slots, w.swapped, slot);
    forall q | 0 <= q < |w'.ptab| && Resident(w'.ptab[q]) ensures InOk(w', q) {
      assert InOk(w, q);
    }
    forall q | q in w'.swapped ensures AwayOk(w', q) {
      assert AwayOk(w, q);
    }
    forall q: nat | Live(w, q) ensures Same(w, w', q) {
      if q in w.swapped {
        assert AwayOk(w, q) && AwayOk(w', q);
      } else {
        assert InOk(w, q);
      }
    }
  }

  // ------------------------------------------------------------------ the kernel's code

  class System {
    const pfree: array<Byte>
    var pfptr: nat
    const swapmap: array<Byte>
    var swapptr: nat
    const ptab: array<Proc>
    var mem: map<Byte, seq<Blk>>
    var disk: seq<Blk>
    const sb: nat
    const ss: nat
    const progtop: Word
    ghost var owner: map<Byte, Owner>
    ghost var slots: map<Byte, SlotState>
    ghost var swapped: set<nat>
    ghost var need: map<nat, nat>

    ghost function Now(): World
      reads this, pfree, swapmap, ptab
      requires pfptr <= pfree.Length && swapptr <= swapmap.Length
    {
      World(pfree[..pfptr], swapmap[..swapptr], ptab[..], Store(mem, disk, sb, ss), owner, slots, swapped, need)
    }

    ghost predicate Valid()
      reads this, pfree, swapmap, ptab
    {
      && pfptr <= pfree.Length && swapptr <= swapmap.Length && pfree != swapmap
      && |owner| <= pfree.Length && |slots| <= swapmap.Length
      && Ok(Now())
    }

    /** pagemap_free: push every page of the map that differs from the one before it.  The comparison starts with
        0xff, so each page is pushed once just if the first one is not 0xff, which is then lost. */
    method PagemapFree(p: nat, ghost k: nat)
      requires p < ptab.Length && Shape(ptab[p].ptr, k) && pfptr + k <= pfree.Length
      modifies this`pfptr, pfree
      ensures pfptr == old(pfptr) + (if ptab[p].ptr[0] == NO_PAGE then k - 1 else k) && pfptr <= pfree.Length
      ensures pfree[..pfptr] == old(pfree[..pfptr]) + if ptab[p].ptr[0] == NO_PAGE then ptab[p].ptr[1..k] else ptab[p].ptr[..k]
      ensures pfree[..pfptr] == old(pfree[..pfptr]) + ptab[p].ptr[..k] <==> ptab[p].ptr[0] != NO_PAGE
    {
      var ptr := ptab[p].ptr;
      ghost var pushed := if ptr[0] == NO_PAGE then 1 else 0;
      var last, i := NO_PAGE, 0;
      while i < 4
        invariant 0 <= i <= 4 && last == (if i == 0 then NO_PAGE else ptr[i - 1])
        invariant pfptr == old(pfptr) + if i == 0 then 0 else Below(i, k) - pushed
        invariant pfree[..pfptr] == old(pfree[..pfptr]) + if i == 0 then [] else ptr[pushed..Below(i, k)]
      {
        ghost var before, had := pfree[..pfptr], if i == 0 then [] else ptr[pushed..Below(i, k)];
        if ptr[i] != last {
          pfree[pfptr] := ptr[i];
          pfptr := pfptr + 1;
          last := ptr[i];
          assert pfree[..pfptr] == before + [ptr[i]];
          OneMore(ptr, pushed, i);
        } else {
          assert ptr[pushed..Below(i + 1, k)] == had;
        }
        i := i + 1;
      }
    }

    /** swapmap_alloc: a slot, or 0 when there is none. */
    method SwapmapAlloc() returns (slot: Byte)
      requires Valid()
      modifies this`swapptr
      ensures slot == 0 <==> old(swapptr) == 0
      ensures if old(swapptr) == 0 then swapptr == 0 else swapptr == old(swapptr) - 1 && slot == swapmap[swapptr]
    {
      hide PagesOk, StoreOk, InOk, AwayOk;
      SparesCount(Now());
      if swapptr > 0 {
        swapptr := swapptr - 1;
        return swapmap[swapptr];
      }
      slot := 0;
    }

    /** swapmap_add */
    method SwapmapAdd(slot: Byte)
      requires swapptr < swapmap.Length
      modifies this`swapptr, swapmap
      ensures swapptr == old(swapptr) + 1 && swapmap[..swapptr] == old(swapmap[..swapptr]) + [slot]
    {
      swapmap[swapptr] := slot;
      swapptr := swapptr + 1;
    }

    /** The four swapwrites of swapout: the chunks fill the slot exactly. */
    method WriteChunks(m: Map, slot: Byte)
      requires Mapped(Store(mem, disk, sb, ss), m) && |disk| == 256 * ss
      modifies this`disk
      ensures slot * ss + ss <= 256 * ss && disk == Splice(old(disk), slot * ss, InMemory(Store(mem, old(disk), sb, ss), m))
    {
      hide Splice, InMemory, ChunkStart, ChunkBase, NextBase, NextSize;
      SlotInDisk(slot, ss);
      FirstChunk(sb, ss);
      var blk: nat, base: nat, size: int, i := slot * ss, sb, BANK - sb, 0;
      ghost var st, disk0 := Store(mem, disk, sb, ss), disk;
      ghost var space := InMemory(st, m);
      SpliceNone(disk0, slot * ss, space);
      while i < 4
        invariant 0 <= i <= 4 && ChunkStart(sb, ss, i) <= ss && blk == slot * ss + ChunkStart(sb, ss, i)
        invariant base % BANK == ChunkBase(sb, i) && base / BANK == i % 4
        invariant i < 4 ==> size == ChunkStart(sb, ss, i + 1) - ChunkStart(sb, ss, i)
        invariant |disk| == |disk0| && disk == Splice(disk0, slot * ss, space[..ChunkStart(sb, ss, i)])
      {
        WriteChunk(m, i, blk, base, size, slot * ss, disk0);
        NextChunk(sb, ss, i, base);
        base := NextBase(base);
        blk := blk + size;
        size := NextSize(sb, ss, i);
        i := i + 1;
      }
      assert space[..ss] == space;
    }

    method WriteChunk(m: Map, i: nat, blk: nat, base: nat, size: int, ghost at: nat, ghost disk0: seq<Blk>)
      requires Mapped(Store(mem, disk0, sb, ss), m) && i < 4 && at + ss <= |disk0| == |disk| && ChunkStart(sb, ss, i) <= ss
      requires blk == at + ChunkStart(sb, ss, i) && base % BANK == ChunkBase(sb, i) && base / BANK == i
      requires size == ChunkStart(sb, ss, i + 1) - ChunkStart(sb, ss, i)
      requires disk == Splice(disk0, at, InMemory(Store(mem, disk0, sb, ss), m)[..ChunkStart(sb, ss, i)])
      modifies this`disk
      ensures size >= 0 && ChunkStart(sb, ss, i + 1) <= ss && |disk| == |disk0|
      ensures disk == Splice(disk0, at, InMemory(Store(mem, disk0, sb, ss), m)[..ChunkStart(sb, ss, i + 1)])
    {
      hide Splice, InMemory, ChunkStart, ChunkBase;
      ghost var st := Store(mem, disk0, sb, ss);
      ChunkIs(st, m, i);
      var data := mem[m[i]][base % BANK..base % BANK + size];
      SpliceMore(disk0, at, InMemory(st, m), ChunkStart(sb, ss, i), ChunkStart(sb, ss, i + 1));
      disk := Splice(disk, blk, data);
    }

    /** swapout: fails only when there is no slot left; otherwise nobody notices. */
    method SwapOut(p: nat) returns (err: bool)
      requires Valid() && p < ptab.Length && Resident(ptab[p])
      modifies this, pfree, ptab
      ensures Valid() && (err <==> old(swapptr) == 0)
      ensures err ==> Now() == old(Now())
      ensures !err ==> Unnoticed(old(Now()), Now(), -1) && !Resident(ptab[p]) && p in swapped
      ensures !err ==> p in need && need[p] >= 1 && pfptr == old(pfptr) + need[p] && swapptr == old(swapptr) - 1
      ensures forall q :: 0 <= q < ptab.Length && q != p ==> ptab[q] == old(ptab[q])
      ensures forall q :: 0 <= q < ptab.Length ==> ptab[q].top == old(ptab[q].top)
      ensures need == old(need) && swapped == if err then old(swapped) else old(swapped) + {p}
      ensures owner.Keys == old(owner.Keys) && slots.Keys == old(slots.Keys)
    {
      hide Ok, Unnoticed, PagesOk, SlotsOk, Shape, InMemory, Splice, FreedOwner, Repeats, OnDisk, Mapped;
      ghost var w := Now();
      OkFacts(w, p);
      var slot := SwapmapAlloc();
      if slot == 0 {
        return true;
      }
      WroteOutOk(w, p);
      ghost var k := need[p];
      SlotInDisk(slot, ss);
      WriteChunks(ptab[p].ptr, slot);
      PagemapFree(p, k);
      owner := FreedOwner(owner, w.free, ptab[p].ptr[..k]);
      slots, swapped := slots[slot := Holds(p)], swapped + {p};
      ptab[p] := Swapped(ptab[p], slot);
      assert Now() == WroteOut(w, p, slot, k, InMemory(w.st, w.ptab[p].ptr));
      FreedSize(w.owner, w.free, w.ptab[p].ptr[..k]);
      UnnoticedOk(w, Now(), -1);
      err := false;
    }

    /** swapvictim, on behalf of p and with notself set. */
    method SwapVictim(p: nat, sched: Sched) returns (n: int)
      requires p < ptab.Length && SchedOk(sched, ptab.Length)
      ensures n == Victim(sched, Flags(ptab[..]), p)
    {
      hide Nth, Victim;
      ghost var res, i := Flags(ptab[..]), 0;
      var c, r, f, sc, first := sched.nextp, -1, -1, 0, true;
      NextNth(sched, ptab.Length, 0);
      while first || c != sched.nextp
        invariant 0 <= i <= ptab.Length && c == Nth(sched, ptab.Length, i) && (first <==> i == 0)
        invariant i > 0 ==> (c == sched.nextp <==> i == ptab.Length)
        invariant r == LastReady(sched, res, i) && f == Longest(sched, res, p, i)
        invariant sc == if f == -1 then 0 else Waited(sched, f)
        decreases ptab.Length - i
      {
        NextNth(sched, ptab.Length, i);
        first := false;
        if Resident(ptab[c]) {
          if sched.status[c] == P_READY {
            r := c;
          }
          if sched.status[c] > P_READY && sched.status[p] <= P_FORKING {
            var s := (sched.waitno - sched.since[c]) % 65536;
            if s >= sc {
              sc := s;
              f := c;
            }
          }
        }
        c := if c + 1 == ptab.Length then 0 else c + 1;
        i := i + 1;
      }
      VictimFrom(sched, res, p);
      n := if f != -1 then f else r;
    }

    /** swapneeded: the victim's pages are gained, unless there is none or it has nowhere to go. */
    method SwapNeeded(p: nat, sched: Sched) returns (n: int)
      requires Valid() && p < ptab.Length && SchedOk(sched, ptab.Length)
      modifies this, pfree, ptab
      ensures Valid() && Unnoticed(old(Now()), Now(), -1)
      ensures n == if old(swapptr) == 0 then -1 else Victim(sched, Flags(old(ptab[..])), p)
      ensures n == -1 ==> Now() == old(Now())
      ensures n != -1 ==>
        && 0 <= n < ptab.Length && old(Resident(ptab[n])) && n in need && need[n] >= 1
        && Flags(ptab[..]) == Flags(old(ptab[..]))[n := false]
        && pfptr == old(pfptr) + need[n] && swapptr == old(swapptr) - 1
      ensures forall q :: 0 <= q < ptab.Length ==> ptab[q].top == old(ptab[q].top)
      ensures forall q :: 0 <= q < ptab.Length && !old(Resident(ptab[q])) ==> ptab[q] == old(ptab[q])
      ensures need == old(need) && (forall q :: q in swapped && q !in old(swapped) ==> 0 <= q < ptab.Length && old(Resident(ptab[q])))
      ensures old(swapped) <= swapped && owner.Keys == old(owner.Keys) && slots.Keys == old(slots.Keys)
    {
      hide Ok, Unnoticed, Victim;
      ghost var tab := ptab[..];
      Reflexive(Now());
      VictimIs(sched, Flags(tab), p);
      n := SwapVictim(p, sched);
      if n != -1 {
        CandidateIs(sched, Flags(tab), p, n);
        var err := SwapOut(n);
        if err {
          n := -1;
        } else {
          assert Flags(ptab[..]) == Flags(tab)[n := false];
        }
      }
    }

    /** There is room for p, or victims enough to make it. */
    ghost predicate RoomFor(p: nat, sched: Sched)
      requires pfptr <= pfree.Length && swapptr <= swapmap.Length && p < ptab.Length && SchedOk(sched, ptab.Length)
      reads this, pfree, swapmap, ptab
    {
      RoomIn(Now(), p, ptab[p].top, progtop, sched)
    }

    /** pagemap_alloc: make room by swapping others out, then take the pages.  err is ENOMEM. */
    method PagemapAlloc(p: nat, sched: Sched) returns (err: bool)
      requires Valid() && p < ptab.Length && !Resident(ptab[p]) && SchedOk(sched, ptab.Length)
      modifies this, pfree, ptab
      ensures Valid() && (err <==> !old(RoomFor(p, sched)))
      ensures err ==> Unnoticed(old(Now()), Now(), -1) && ptab[p] == old(ptab[p]) && (p in swapped <==> p in old(swapped))
      ensures !err ==> Unnoticed(old(Now()), Now(), p) && Resident(ptab[p]) && p !in swapped
      ensures !err ==> p in need && need[p] == MapsNeeded(ptab[p].top, progtop) && Shape(ptab[p].ptr, need[p])
      ensures !err && p in old(swapped) ==> var slot := old(Page2(ptab[p])); slot < 256 && slot in slots && slots[slot] == Moving
      ensures !err && p in old(swapped) ==> OnDiskNow(old(Page2(ptab[p]))) == old(Space(Now(), p))
      ensures owner.Keys == old(owner.Keys) && slots.Keys == old(slots.Keys)
      ensures need == if err then old(need) else old(need)[p := MapsNeeded(ptab[p].top, progtop)]
      ensures var needed := MapsNeeded(ptab[p].top, progtop);
        needed <= old(pfptr) ==> pfptr == old(pfptr) - needed && swapptr == old(swapptr) && swapped == old(swapped) - {p}
      ensures forall q :: 0 <= q < ptab.Length ==> ptab[q].top == old(ptab[q].top)
    {
      hide Ok, Unnoticed, Shape, InMemory, MapsNeeded, OnDisk, Enough;
      var needed := MapsNeeded(ptab[p].top, progtop);
      ghost var w0 := Now();
      EnoughAtOnce(sched, Flags(w0.ptab), w0.need, p, pfptr, swapptr, needed);
      err := MakeRoom(p, needed, sched);
      assert |Now().free| == pfptr && |Now().spare| == swapptr;
      if !err {
        ghost var w := Now();
        TakeRoom(p, needed);
        Weaken(w0, w, p);
        Trans(w0, w, Now(), p);
        if p in w0.swapped {
          StillOnDisk(w0, w, p);
        }
      }
    }

    /** The loop that swaps others out until there are enough pages. */
    method MakeRoom(p: nat, needed: nat, sched: Sched) returns (err: bool)
      requires Valid() && p < ptab.Length && !Resident(ptab[p]) && SchedOk(sched, ptab.Length)
      modifies this, pfree, ptab
      ensures Valid() && Unnoticed(old(Now()), Now(), -1) && ptab[p] == old(ptab[p]) && (p in swapped <==> p in old(swapped))
      ensures err <==> !Enough(sched, Flags(old(ptab[..])), old(need), p, old(pfptr), old(swapptr), needed)
      ensures owner.Keys == old(owner.Keys) && slots.Keys == old(slots.Keys) && (!err ==> needed <= pfptr)
      ensures need == old(need) && (needed <= old(pfptr) ==> Now() == old(Now()))
      ensures forall q :: 0 <= q < ptab.Length ==> ptab[q].top == old(ptab[q].top)
    {
      hide Ok, Unnoticed, Victim, Enough;
      ghost var w0 := Now();
      Reflexive(w0);
      while needed > pfptr
        invariant Valid() && Unnoticed(w0, Now(), -1) && ptab[p] == old(ptab[p]) && (p in swapped <==> p in old(swapped))
        invariant Enough(sched, Flags(ptab[..]), need, p, pfptr, swapptr, needed)
             <==> Enough(sched, Flags(w0.ptab), w0.need, p, |w0.free|, |w0.spare|, needed)
        invariant owner.Keys == old(owner.Keys) && slots.Keys == old(slots.Keys) && need == old(need)
        invariant needed <= old(pfptr) ==> Now() == w0
        invariant forall q :: 0 <= q < ptab.Length ==> ptab[q].top == old(ptab[q].top)
        decreases needed - pfptr
      {
        ghost var w := Now();
        EnoughStep(sched, Flags(ptab[..]), need, p, pfptr, swapptr, needed);
        var n := SwapNeeded(p, sched);
        Trans(w0, w, Now(), -1);
        if n == -1 {
          return true;
        }
      }
      EnoughStep(sched, Flags(ptab[..]), need, p, pfptr, swapptr, needed);
      err := false;
    }

    method TakeRoom(p: nat, needed: nat)
      requires Valid() && p < ptab.Length && !Resident(ptab[p]) && 1 <= needed <= 4 && needed <= pfptr
      modifies this, ptab
      ensures Valid() && Unnoticed(old(Now()), Now(), p) && Resident(ptab[p]) && p !in swapped && ptab[p].top == old(ptab[p].top)
      ensures p in need && need[p] == needed && Shape(ptab[p].ptr, need[p]) && disk == old(disk) && mem == old(mem)
      ensures p in old(swapped) ==> var slot := old(Page2(ptab[p])); slot < 256 && slot in slots && slots[slot] == Moving
      ensures owner.Keys == old(owner.Keys) && slots.Keys == old(slots.Keys) && need == old(need)[p := needed]
      ensures pfptr == old(pfptr) - needed && swapptr == old(swapptr) && swapped == old(swapped) - {p}
      ensures forall q :: 0 <= q < ptab.Length ==> ptab[q].top == old(ptab[q].top)
    {
      hide Ok, Unnoticed, Shape, InMemory, Popped, TakenOwner, PagesOk, SlotsOk, Repeats, OnDisk;
      ghost var w := Now();
      TakenOk(w, p, needed);
      TakenSizes(w, p, needed);
      TakeMap(p, needed);
      owner := TakenOwner(owner, ptab[p].ptr, p);
      slots := if p in swapped then slots[Page2(w.ptab[p]) := Moving] else slots;
      swapped, need := swapped - {p}, need[p := needed];
      assert Now() == Taken(w, p, needed);
      UnnoticedOk(w, Now(), p);
      assert InOk(Now(), p);
    }

    ghost function OnDiskNow(slot: nat): seq<Blk>
      reads this
    {
      if slot < 256 && |disk| == 256 * ss then OnDisk(disk, ss, slot) else []
    }

    /** The pops of pagemap_alloc2, low banks first, and the last page repeated. */
    method TakeMap(p: nat, needed: nat)
      requires p < ptab.Length && 1 <= needed <= 4 && needed <= pfptr <= pfree.Length
      modifies this`pfptr, ptab
      ensures pfptr == old(pfptr) - needed
      ensures ptab[..] == old(ptab[..])[p := old(ptab[p]).(ptr := Popped(pfree[..old(pfptr)], needed))]
    {
      ghost var all := pfree[..pfptr];
      var i := 0;
      while i < needed
        invariant 0 <= i <= needed && pfptr == old(pfptr) - i
        invariant forall q :: 0 <= q < ptab.Length && q != p ==> ptab[q] == old(ptab[q])
        invariant ptab[p] == old(ptab[p]).(ptr := ptab[p].ptr) && forall j :: 0 <= j < i ==> ptab[p].ptr[j] == all[|all| - 1 - j]
      {
        pfptr := pfptr - 1;
        ptab[p] := ptab[p].(ptr := ptab[p].ptr[i := pfree[pfptr]]);
        i := i + 1;
      }
      var c := ptab[p].ptr[i - 1];
      while i < 4
        invariant needed <= i <= 4 && pfptr == old(pfptr) - needed
        invariant forall q :: 0 <= q < ptab.Length && q != p ==> ptab[q] == old(ptab[q])
        invariant ptab[p] == old(ptab[p]).(ptr := ptab[p].ptr) && forall j :: 0 <= j < needed ==> ptab[p].ptr[j] == all[|all| - 1 - j]
        invariant forall j :: needed <= j < i ==> ptab[p].ptr[j] == all[|all| - needed]
      {
        ptab[p] := ptab[p].(ptr := ptab[p].ptr[i := c]);
        i := i + 1;
      }
      assert ptab[p].ptr == Popped(all, needed);
    }

    /** swapin: read the four chunks of a slot into the banks of a process. */
    method SwapIn(p: nat, slot: Byte)
      requires Valid() && p < ptab.Length
      requires Resident(ptab[p]) ==> p in need && Repeats(OnDiskNow(slot), sb, need[p])
      modifies this`mem
      ensures Valid()
      ensures !Resident(ptab[p]) ==> mem == old(mem)
      ensures Resident(ptab[p]) ==> Unnoticed(old(Now()), Now(), p) && Space(Now(), p) == OnDiskNow(slot)
    {
      hide Ok, Unnoticed, PagesOk, SlotsOk, Shape, InMemory, Splice, ChunkStart, ChunkBase, Repeats, AfterChunk;
      if !Resident(ptab[p]) {
        return;
      }
      ghost var w := Now();
      OkFacts(w, p);
      ReadChunks(ptab[p].ptr, slot, need[p]);
      ReadInOk(w, p, Store(mem, disk, sb, ss));
      assert Now() == w.(st := Store(mem, disk, sb, ss));
      UnnoticedOk(w, Now(), p);
    }

    method ReadChunks(m: Map, slot: Byte, ghost k: nat)
      requires Mapped(Store(mem, disk, sb, ss), m) && |disk| == 256 * ss && Shape(m, k) && Repeats(OnDiskNow(slot), sb, k)
      modifies this`mem
      ensures mem.Keys == old(mem.Keys) && forall x :: x in mem && x !in m ==> mem[x] == old(mem)[x]
      ensures var st := Store(mem, disk, sb, ss); Mapped(st, m) && InMemory(st, m) == OnDiskNow(slot)
    {
      hide InMemory, Splice, ChunkStart, ChunkBase, Repeats, AfterChunk, NextBase, NextSize, Shape;
      ghost var space := OnDiskNow(slot);
      SlotInDisk(slot, ss);
      FirstChunk(sb, ss);
      var blk: nat, base: nat, size: int, i := slot * ss, sb, BANK - sb, 0;
      while i < 4
        invariant 0 <= i <= 4 && ChunkStart(sb, ss, i) <= ss && blk == slot * ss + ChunkStart(sb, ss, i)
        invariant base % BANK == ChunkBase(sb, i) && base / BANK == i % 4
        invariant i < 4 ==> size == ChunkStart(sb, ss, i + 1) - ChunkStart(sb, ss, i)
        invariant Mapped(Store(mem, disk, sb, ss), m)
        invariant InMemory(Store(mem, disk, sb, ss), m)[..ChunkStart(sb, ss, i)] == space[..ChunkStart(sb, ss, i)]
        invariant mem.Keys == old(mem.Keys) && forall x :: x in mem && x !in m ==> mem[x] == old(mem)[x]
      {
        NextChunk(sb, ss, i, base);
        ChunkRead(Store(mem, disk, sb, ss), m, k, space, i);
        AfterMapped(Store(mem, disk, sb, ss), m, space, i);
        ReadChunk(m, i, blk, base, size, slot, space);
        base := NextBase(base);
        blk := blk + size;
        size := NextSize(sb, ss, i);
        i := i + 1;
      }
      assert space[..ss] == space;
    }

    method ReadChunk(m: Map, i: nat, blk: nat, base: nat, size: int, ghost slot: Byte, ghost space: seq<Blk>)
      requires Mapped(Store(mem, disk, sb, ss), m) && i < 4 && |disk| == 256 * ss && space == OnDiskNow(slot)
      requires ChunkStart(sb, ss, i) <= ss && ChunkStart(sb, ss, i + 1) <= ss
      requires blk == slot * ss + ChunkStart(sb, ss, i) && base % BANK == ChunkBase(sb, i) && base / BANK == i
      requires size == ChunkStart(sb, ss, i + 1) - ChunkStart(sb, ss, i)
      modifies this`mem
      ensures |space| == ss && Store(mem, disk, sb, ss) == AfterChunk(old(Store(mem, disk, sb, ss)), m, space, i)
    {
      hide ChunkStart, ChunkBase, InMemory, OnDisk, Splice;
      ChunkRoom(sb, ss, i);
      ChunkOnDisk(disk, ss, slot, ChunkStart(sb, ss, i), ChunkStart(sb, ss, i + 1));
      var data := disk[blk..blk + size];
      mem := mem[m[i] := Splice(mem[m[i]], base % BANK, data)];
    }

    /** swapper and swapper2: bring a process back.  When there is no room for it the source frees its slot all the
        same, so that the slot is then both free and the home of the process. */
    method Swapper(p: nat, sched: Sched) returns (err: bool)
      requires Valid() && p in swapped && p < ptab.Length && p in need && need[p] == MapsNeeded(ptab[p].top, progtop)
      requires SchedOk(sched, ptab.Length)
      modifies this, pfree, swapmap, ptab
      ensures err <==> !old(RoomFor(p, sched))
      ensures !err ==> Valid() && Unnoticed(old(Now()), Now(), -1) && Resident(ptab[p])
      ensures !err ==> owner.Keys == old(owner.Keys) && slots.Keys == old(slots.Keys) && need == old(need)
      ensures forall q :: 0 <= q < ptab.Length ==> ptab[q].top == old(ptab[q].top)
      ensures err ==> swapptr > 0 && swapptr <= swapmap.Length && !Resident(ptab[p]) && swapmap[swapptr - 1] == Page2(ptab[p]) && p in swapped
      ensures err ==> !Valid()
    {
      hide Ok, Unnoticed, PagesOk, SlotsOk, Shape, InMemory, Repeats, MapsNeeded, OnDisk, RoomIn;
      ghost var w0 := Now();
      Away(w0, p);
      var slot: Byte := Page2(ptab[p]);
      err := PagemapAlloc(p, sched);
      ghost var w1 := Now();
      if err {
        Away(w1, p);
        SlotRoom(w1, p);
      } else {
        SlotRoom2(w1, slot);
      }
      SwapIn(p, slot);
      ghost var w2 := Now();
      SwapmapAdd(slot);
      if !err {
        ReturnedOk(w2, slot);
        ghost var spares := |w2.spare|;
        slots := slots[slot := Spare(spares)];
        assert Now() == w2.(spare := w2.spare + [slot], slots := w2.slots[slot := Spare(|w2.spare|)]);
        Returned3(w0, w1, w2, Now(), p);
      } else {
        if Ok(Now()) {
          NotTwice(Now(), p);
        }
      }
    }

    /** pagemap_realloc to a program that ends at size; the common page stays at the top, and the low banks that
        both sizes have stay where they are with their contents. */
    method PagemapRealloc(p: nat, size: Word) returns (err: bool)
      requires Valid() && p < ptab.Length && Resident(ptab[p]) && p in need && need[p] == MapsNeeded(ptab[p].top, progtop)
      modifies this, pfree, ptab
      ensures Valid() && Resident(ptab[p]) && p in need && ptab[p].top == old(ptab[p].top) && Unnoticed(old(Now()), Now(), p)
      ensures err <==> MapsNeeded(size, progtop) > old(need[p]) + old(pfptr)
      ensures need[p] == if err then old(need[p]) else MapsNeeded(size, progtop)
      ensures pfptr + need[p] == old(pfptr) + old(need[p]) && ptab[p].ptr[3] == old(ptab[p].ptr[3])
      ensures forall j :: 0 <= j < Below(old(need[p]), need[p]) - 1 ==> ptab[p].ptr[j] == old(ptab[p].ptr[j])
      ensures mem == old(mem) && disk == old(disk) && (err ==> Now() == old(Now()))
      ensures owner.Keys == old(owner.Keys) && slots == old(slots) && (forall q :: q != p ==> (q in need <==> q in old(need)))
      ensures forall q :: q != p && q in need && q in old(need) ==> need[q] == old(need)[q]
      ensures forall q :: 0 <= q < ptab.Length ==> ptab[q].top == old(ptab[q].top)
    {
      hide Ok, Unnoticed, PagesOk, SlotsOk, Shape, InMemory, Repeats, MapsNeeded, OnDisk;
      ghost var w, owner0 := Now(), owner;
      OkFacts(w, p);
      OkPages(w);
      Reflexive(w);
      Weaken(w, w, p);
      var have, want := MapsNeeded(ptab[p].top, progtop), MapsNeeded(size, progtop);
      err := false;
      if have > want {
        owner := Shrink(p, have, want);
      } else if want - have <= pfptr {
        owner := Grow(p, have, want);
      } else {
        return true;
      }
      need := need[p := want];
      KeyCount(owner0, owner);
      Remapped(w, Now(), p, want);
      UnnoticedOk(w, Now(), p);
    }

    method Shrink(p: nat, have: nat, want: nat) returns (ghost o: map<Byte, Owner>)
      requires pfptr <= pfree.Length && |owner| <= pfree.Length && p < ptab.Length && Resident(ptab[p]) && 1 <= want < have <= 4
      requires PagesOk(pfree[..pfptr], ptab[..], owner) && Shape(ptab[p].ptr, have)
      modifies this`pfptr, pfree, ptab
      ensures pfptr <= pfree.Length && PagesOk(pfree[..pfptr], ptab[..], o) && o.Keys == owner.Keys
      ensures ptab[..] == old(ptab[..])[p := old(ptab[p]).(ptr := ptab[p].ptr)] && Resident(ptab[p]) && Shape(ptab[p].ptr, want)
      ensures pfptr == old(pfptr) + (have - want) && ptab[p].ptr[3] == old(ptab[p].ptr[3])
      ensures forall j :: 0 <= j < want - 1 ==> ptab[p].ptr[j] == old(ptab[p].ptr[j])
    {
      hide PagesOk, Resident;
      o := owner;
      ghost var m := ptab[p].ptr;
      var i := want;
      while i < have
        invariant want <= i <= have && pfptr <= pfree.Length && pfptr == old(pfptr) + (i - want)
        invariant PagesOk(pfree[..pfptr], ptab[..], o) && o.Keys == owner.Keys && Resident(ptab[p])
        invariant ptab[..] == old(ptab[..])[p := old(ptab[p]).(ptr := ptab[p].ptr)]
        invariant forall j :: 0 <= j < 4 ==> ptab[p].ptr[j] == if want - 1 <= j < i - 1 then m[3] else m[j]
      {
        ghost var free, tab := pfree[..pfptr], ptab[..];
        DropPage(free, tab, o, p, i - 1);
        KeyCount(owner, o);
        var x := ptab[p].ptr[i - 1];
        pfree[pfptr] := x;
        pfptr := pfptr + 1;
        ptab[p] := ptab[p].(ptr := ptab[p].ptr[i - 1 := ptab[p].ptr[3]]);
        o := o[x := Free(|free|)];
        assert pfree[..pfptr] == free + [x];
        assert ptab[..] == tab[p := ptab[p]];
        i := i + 1;
      }
    }

    method Grow(p: nat, have: nat, want: nat) returns (ghost o: map<Byte, Owner>)
      requires pfptr <= pfree.Length && p < ptab.Length && Resident(ptab[p]) && 1 <= have <= want <= 4 && want - have <= pfptr
      requires PagesOk(pfree[..pfptr], ptab[..], owner) && Shape(ptab[p].ptr, have)
      modifies this`pfptr, ptab
      ensures pfptr <= pfree.Length && PagesOk(pfree[..pfptr], ptab[..], o) && o.Keys == owner.Keys
      ensures ptab[..] == old(ptab[..])[p := old(ptab[p]).(ptr := ptab[p].ptr)] && Resident(ptab[p]) && Shape(ptab[p].ptr, want)
      ensures pfptr == old(pfptr) - (want - have) && ptab[p].ptr[3] == old(ptab[p].ptr[3])
      ensures forall j :: 0 <= j < have - 1 ==> ptab[p].ptr[j] == old(ptab[p].ptr[j])
    {
      hide PagesOk, Resident;
      o := owner;
      ghost var m := ptab[p].ptr;
      var i := have;
      while i < want
        invariant have <= i <= want && pfptr <= pfree.Length && pfptr == old(pfptr) - (i - have)
        invariant PagesOk(pfree[..pfptr], ptab[..], o) && o.Keys == owner.Keys && Resident(ptab[p])
        invariant ptab[..] == old(ptab[..])[p := old(ptab[p]).(ptr := ptab[p].ptr)]
        invariant Shape(ptab[p].ptr, i) && ptab[p].ptr[3] == m[3] && forall j :: 0 <= j < have - 1 ==> ptab[p].ptr[j] == m[j]
      {
        ghost var free, tab := pfree[..pfptr], ptab[..];
        AddPage(free, tab, o, p, i - 1);
        GrownShape(ptab[p].ptr, i, free[|free| - 1]);
        pfptr := pfptr - 1;
        ptab[p] := ptab[p].(ptr := ptab[p].ptr[i - 1 := pfree[pfptr]]);
        o := o[pfree[pfptr] := Held(p)];
        assert pfree[..pfptr] == free[..|free| - 1];
        assert ptab[..] == tab[p := ptab[p]];
        i := i + 1;
      }
    }

    /** A process ends: its pages are free again. */
    method Exit(p: nat)
      requires Valid() && p < ptab.Length && Resident(ptab[p])
      modifies this, pfree, ptab
      ensures Valid() && Unnoticed(old(Now()), Now(), p) && !Resident(ptab[p]) && p !in swapped
      ensures p in need && pfptr == old(pfptr) + need[p] && owner.Keys == old(owner.Keys) && slots == old(slots) && need == old(need)
      ensures forall q :: 0 <= q < ptab.Length ==> ptab[q].top == old(ptab[q].top)
    {
      hide Ok, Unnoticed, PagesOk, SlotsOk, Shape, InMemory, Repeats, OnDisk;
      ghost var w := Now();
      OkFacts(w, p);
      OkPages(w);
      ghost var k := need[p];
      RoomToFree(w.free, w.ptab, w.owner, p, k);
      FreePages(w.free, w.ptab, w.owner, p, k, 0);
      PagemapFree(p, k);
      owner := FreedOwner(owner, w.free, ptab[p].ptr[..k]);
      ptab[p] := Swapped(ptab[p], 0);
      FreedSize(w.owner, w.free, w.ptab[p].ptr[..k]);
      Ended(w, Now(), p);
      UnnoticedOk(w, Now(), p);
    }

    /** A machine without pages, slots or processes yet. */
    constructor (maxMaps: nat, maxSwaps: nat, procs: nat, banks: map<Byte, seq<Blk>>, device: seq<Blk>, swapbase: nat, swapsize: nat,
                 progtop: Word)
      requires Sizes(swapbase, swapsize) && |device| == 256 * swapsize
      ensures Valid() && pfptr == 0 && swapptr == 0 && owner == map[] && slots == map[] && mem == banks && disk == device
      ensures pfree.Length == maxMaps && swapmap.Length == maxSwaps && ptab.Length == procs
      ensures sb == swapbase && ss == swapsize && this.progtop == progtop && swapped == {}
      ensures fresh(pfree) && fresh(swapmap) && fresh(ptab)
    {
      pfree := new Byte[maxMaps](_ => 0);
      swapmap := new Byte[maxSwaps](_ => 0);
      ptab := new Proc[procs](_ => Proc([0, 0, 0, 0], 0));
      pfptr, swapptr, mem, disk, sb, ss := 0, 0, banks, device, swapbase, swapsize;
      this.progtop := progtop;
      owner, slots, swapped, need := map[], map[], {}, map[];
    }

    /** pagemap_add, at boot. */
    method PagemapAdd(page: Byte)
      requires Valid() && |owner| < pfree.Length && page !in owner && page != 0 && page != NO_PAGE
      requires page in mem && |mem[page]| == BANK
      modifies this`pfptr, this`owner, pfree
      ensures Valid() && Unnoticed(old(Now()), Now(), -1)
      ensures owner.Keys == old(owner.Keys) + {page} && pfree[..pfptr] == old(pfree[..pfptr]) + [page]
    {
      hide Ok, Unnoticed, PagesOk, InMemory, Shape, Repeats, OnDisk;
      ghost var w := Now();
      OkPages(w);
      PagesFit(w);
      pfree[pfptr] := page;
      pfptr := pfptr + 1;
      owner := owner[page := Free(pfptr - 1)];
      Added(w, Now(), page);
      UnnoticedOk(w, Now(), -1);
    }

    /** swapmap_init, at boot. */
    method SwapmapInit(slot: Byte)
      requires Valid() && |slots| < swapmap.Length && slot !in slots && slot != 0
      modifies this`swapptr, this`slots, swapmap
      ensures Valid() && Unnoticed(old(Now()), Now(), -1)
      ensures slots.Keys == old(slots.Keys) + {slot} && swapmap[..swapptr] == old(swapmap[..swapptr]) + [slot]
    {
      hide Ok, Unnoticed, PagesOk, SlotsOk, InMemory, Shape, Repeats, OnDisk;
      ghost var w := Now();
      NewSlot(w, slot);
      UnnoticedOk(w, w.(slots := w.slots[slot := Moving]), -1);
      ghost var w1 := w.(slots := w.slots[slot := Moving]);
      ReturnedOk(w1, slot);
      swapmap[swapptr] := slot;
      swapptr := swapptr + 1;
      slots := slots[slot := Spare(swapptr - 1)];
      assert Now() == w1.(spare := w1.spare + [slot], slots := w1.slots[slot := Spare(|w1.spare|)]);
      Trans(w, w1, Now(), -1);
      UnnoticedOk(w, Now(), -1);
    }
  }

  /** Victims, free pages and slots at one moment suffice for a process p that ends at top. */
  ghost predicate RoomIn(w: World, p: nat, top: Word, progtop: Word, sched: Sched)
    requires p < |w.ptab| && SchedOk(sched, |w.ptab|)
  {
    Enough(sched, Flags(w.ptab), w.need, p, |w.free|, |w.spare|, MapsNeeded(top, progtop))
  }

  function Below(a: nat, b: nat): nat {
    if a < b then a else b
  }

  lemma OneMore(s: seq<Byte>, lo: nat, i: nat)
    requires lo <= i < |s|
    ensures s[lo..i + 1] == s[lo..i] + [s[i]]
  {
  }

  lemma SparesCount(w: World)
    requires SlotsOk(w.spare, w.ptab, w.slots, w.swapped)
    ensures forall i :: 0 <= i < |w.spare| ==> w.spare[i] != 0
  {
    forall i | 0 <= i < |w.spare| ensures w.spare[i] != 0 {
      assert w.slots[w.spare[i]] == Spare(i) && SlotOk(w.spare, w.ptab, w.slots, w.swapped, w.spare[i]);
    }
  }

  /** The top spare slot is nobody's. */
  lemma NotTwice(w: World, p: nat)
    requires Ok(w) && p in w.swapped && w.spare != []
    ensures p < |w.ptab| && w.spare[|w.spare| - 1] != Page2(w.ptab[p])
  {
    assert OutOk(w.ptab, w.slots, p);
    assert w.slots[w.spare[|w.spare| - 1]] == Spare(|w.spare| - 1);
  }

  lemma NewSlot(w: World, slot: Byte)
    requires Ok(w) && slot !in w.slots && slot != 0
    ensures Unnoticed(w, w.(slots := w.slots[slot := Moving]), -1) && |w.spare| <= |w.slots|
  {
    hide PagesOk, Shape, Repeats, InMemory, OnDisk;
    var w' := w.(slots := w.slots[slot := Moving]);
    forall x | x in w'.slots ensures SlotOk(w'.spare, w'.ptab, w'.slots, w'.swapped, x) {
      assert x != slot ==> SlotOk(w.spare, w.ptab, w.slots, w.swapped, x);
    }
    forall q | q in w'.swapped ensures OutOk(w'.ptab, w'.slots, q) && AwayOk(w', q) {
      assert OutOk(w.ptab, w.slots, q) && AwayOk(w, q);
    }
    forall q | 0 <= q < |w'.ptab| && Resident(w'.ptab[q]) ensures InOk(w', q) {
      assert InOk(w, q);
    }
    forall q: nat | Live(w, q) ensures Same(w, w', q) {
      if Resident(w.ptab[q]) {
        assert InOk(w, q);
      } else {
        assert AwayOk(w, q) && AwayOk(w', q);
      }
    }
    SpareFit(w.spare, w.slots);
  }

  lemma ChunkOnDisk(disk: seq<Blk>, ss: nat, slot: Byte, from: nat, to: nat)
    requires |disk| == 256 * ss && from <= to <= ss
    ensures slot * ss + to <= |disk| && disk[slot * ss + from..slot * ss + to] == OnDisk(disk, ss, slot)[from..to]
  {
    SlotInDisk(slot, ss);
    SliceOfSlice(disk, slot * ss, (slot + 1) * ss, from, to);
  }

  lemma SliceOfSlice(s: seq<Blk>, lo: nat, hi: nat, from: nat, to: nat)
    requires lo <= hi <= |s| && from <= to <= hi - lo
    ensures s[lo..hi][from..to] == s[lo + from..lo + to]
  {
    var a, b := s[lo..hi][from..to], s[lo + from..lo + to];
    assert |a| == |b|;
    forall i | 0 <= i < |a| ensures a[i] == b[i] {
      assert a[i] == s[lo..hi][from + i] == s[lo + (from + i)];
    }
  }

  lemma OkPages(w: World)
    requires Ok(w)
    ensures PagesOk(w.free, w.ptab, w.owner) && SlotsOk(w.spare, w.ptab, w.slots, w.swapped) && StoreOk(w.st, w.owner)
  {
  }

  lemma PagesFit(w: World)
    requires PagesOk(w.free, w.ptab, w.owner)
    ensures |w.free| <= |w.owner|
  {
    FreeFit(w.free, w.owner);
  }

  lemma KeyCount(a: map<Byte, Owner>, b: map<Byte, Owner>)
    requires a.Keys == b.Keys
    ensures |a| == |b|
  {
    assert |a.Keys| == |a| && |b.Keys| == |b|;
  }

  lemma GrownShape(m: Map, k: nat, x: Byte)
    requires Shape(m, k) && k < 4 && x !in m
    ensures Shape(m[k - 1 := x], k + 1) && m[k - 1] == m[3]
  {
  }

  /** Only the map of p and the free stack change. */
  lemma Remapped(w: World, w': World, p: nat, k: nat)
    requires Ok(w) && p < |w.ptab| && Resident(w.ptab[p])
    requires PagesOk(w'.free, w'.ptab, w'.owner) && w'.owner.Keys == w.owner.Keys && |w'.ptab| == |w.ptab|
    requires w' == World(w'.free, w.spare, w.ptab[p := w'.ptab[p]], w.st, w'.owner, w.slots, w.swapped, w.need[p := k])
    requires Resident(w'.ptab[p]) && Shape(w'.ptab[p].ptr, k)
    ensures Unnoticed(w, w', p)
  {
    hide PagesOk, SlotsOk, Shape, Repeats, InMemory, OnDisk;
    NotAway(w, p);
    SlotsKeep(w.spare, w.ptab, w.slots, w.swapped, p, w'.ptab[p]);
    Elsewhere(w, w', p);
  }

  lemma NotAway(w: World, p: nat)
    requires Ok(w) && p < |w.ptab| && Resident(w.ptab[p])
    ensures p !in w.swapped
  {
    assert p in w.swapped ==> AwayOk(w, p);
  }

  lemma Ended(w: World, w': World, p: nat)
    requires Ok(w) && p < |w.ptab| && Resident(w.ptab[p])
    requires PagesOk(w'.free, w'.ptab, w'.owner) && w'.owner.Keys == w.owner.Keys && |w'.ptab| == |w.ptab|
    requires w' == World(w'.free, w.spare, w.ptab[p := Swapped(w.ptab[p], 0)], w.st, w'.owner, w.slots, w.swapped, w.need)
    ensures Unnoticed(w, w', p) && p !in w.swapped
  {
    hide PagesOk, SlotsOk, Shape, Repeats, InMemory, OnDisk;
    NotAway(w, p);
    SlotsKeep(w.spare, w.ptab, w.slots, w.swapped, p, w'.ptab[p]);
    Elsewhere(w, w', p);
  }

  /** The processes other than p are where they were. */
  lemma Elsewhere(w: World, w': World, p: nat)
    requires Ok(w) && p < |w.ptab| && p !in w.swapped && |w'.ptab| == |w.ptab| && w'.st == w.st && w'.swapped == w.swapped
    requires PagesOk(w'.free, w'.ptab, w'.owner) && SlotsOk(w'.spare, w'.ptab, w'.slots, w'.swapped) && w'.owner.Keys == w.owner.Keys
    requires forall q :: 0 <= q < |w.ptab| && q != p ==> w'.ptab[q] == w.ptab[q]
    requires forall q :: q != p ==> (q in w.need <==> q in w'.need)
    requires forall q :: q in w.need && q in w'.need && q != p ==> w'.need[q] == w.need[q]
    requires Resident(w'.ptab[p]) ==> InOk(w', p)
    ensures Unnoticed(w, w', p)
  {
    hide PagesOk, SlotsOk, Shape, Repeats, InMemory, OnDisk;
    forall q | 0 <= q < |w'.ptab| && Resident(w'.ptab[q]) ensures InOk(w', q) {
      assert q != p ==> InOk(w, q);
    }
    forall q | q in w'.swapped ensures AwayOk(w', q) {
      assert AwayOk(w, q);
    }
    forall q: nat | Live(w, q) && q != p ensures Same(w, w', q) {
      if Resident(w.ptab[q]) {
        assert InOk(w, q);
        MapIsMapped(w, q);
      } else {
        assert AwayOk(w, q) && AwayOk(w', q);
      }
    }
  }

  lemma Added(w: World, w': World, page: Byte)
    requires Ok(w) && page !in w.owner && page != 0 && page != NO_PAGE && page in w.st.mem && |w.st.mem[page]| == BANK
    requires w' == w.(free := w.free + [page], owner := w.owner[page := Free(|w.free|)])
    ensures Unnoticed(w, w', -1)
  {
    hide SlotsOk, Shape, Repeats, InMemory, OnDisk;
    AddedPages(w.free, w.ptab, w.owner, page);
    hide PagesOk;
    forall q | 0 <= q < |w'.ptab| && Resident(w'.ptab[q]) ensures InOk(w', q) {
      assert InOk(w, q);
    }
    forall q | q in w'.swapped ensures AwayOk(w', q) {
      assert AwayOk(w, q);
    }
    forall q: nat | Live(w, q) ensures Same(w, w', q) {
      if Resident(w.ptab[q]) {
        assert InOk(w, q);
      } else {
        assert AwayOk(w, q) && AwayOk(w', q);
      }
    }
  }

  lemma AddedPages(free: seq<Byte>, ptab: seq<Proc>, owner: map<Byte, Owner>, page: Byte)
    requires PagesOk(free, ptab, owner) && page !in owner && page != 0 && page != NO_PAGE
    ensures PagesOk(free + [page], ptab, owner[page := Free(|free|)])
  {
    var free', owner' := free + [page], owner[page := Free(|free|)];
    forall i | 0 <= i < |free'| ensures free'[i] in owner' && owner'[free'[i]] == Free(i) {
      assert i < |free| ==> owner[free[i]] == Free(i);
    }
    forall x | x in owner' ensures PageOk(free', ptab, owner', x) {
      assert x != page ==> PageOk(free, ptab, owner, x);
    }
    forall q | 0 <= q < |ptab| && Resident(ptab[q]) ensures MapOk(ptab, owner', q) {
      assert MapOk(ptab, owner, q);
    }
  }

  lemma Reflexive(w: World)
    requires Ok(w)
    ensures Unnoticed(w, w, -1)
  {
    forall p: nat | Live(w, p) ensures Same(w, w, p) {
      if Resident(w.ptab[p]) {
        assert InOk(w, p);
      } else {
        assert AwayOk(w, p);
      }
    }
  }

  lemma Weaken(w: World, w': World, but: int)
    requires Unnoticed(w, w', -1)
    ensures Unnoticed(w, w', but)
  {
  }

  lemma TakenSizes(w: World, p: nat, k: nat)
    requires Ok(w) && p < |w.ptab| && 1 <= k <= 4 && k <= |w.free| && (p in w.swapped ==> Page2(w.ptab[p]) < 256)
    ensures var w' := Taken(w, p, k);
      w'.owner.Keys == w.owner.Keys && |w'.owner| == |w.owner| && w'.slots.Keys == w.slots.Keys && |w'.slots| == |w.slots|
    ensures p in w.swapped ==> Page2(w.ptab[p]) in w.slots
  {
    var w' := Taken(w, p, k);
    TakenKeys(w.owner, Popped(w.free, k), p);
    assert p in w.swapped ==> OutOk(w.ptab, w.slots, p);
    assert |w.owner.Keys| == |w.owner| && |w'.owner.Keys| == |w'.owner|;
    assert w'.slots.Keys == w.slots.Keys;
    assert |w.slots.Keys| == |w.slots| && |w'.slots.Keys| == |w'.slots|;
  }

  /** A process that stays swapped out stays on disk as it was. */
  lemma StillOnDisk(w0: World, w: World, p: nat)
    requires Unnoticed(w0, w, -1) && p in w0.swapped && p in w.swapped && p < |w0.ptab| && p < |w.ptab| && w.ptab[p] == w0.ptab[p]
    ensures Page2(w.ptab[p]) < 256 && |w.st.disk| == 256 * w.st.ss && OnDisk(w.st.disk, w.st.ss, Page2(w.ptab[p])) == Space(w0, p)
  {
    assert AwayOk(w0, p) && AwayOk(w, p);
    assert Live(w0, p) && Same(w0, w, p);
  }

  lemma Away(w: World, p: nat)
    requires Ok(w) && p in w.swapped
    ensures p < |w.ptab| && !Resident(w.ptab[p]) && Page2(w.ptab[p]) < 256 && p in w.need && |w.st.disk| == 256 * w.st.ss
    ensures Space(w, p) == OnDisk(w.st.disk, w.st.ss, Page2(w.ptab[p])) && Repeats(Space(w, p), w.st.sb, w.need[p])
  {
    assert AwayOk(w, p);
  }

  /** There is room on the stack of slots for one that is in use. */
  lemma SlotRoom(w: World, p: nat)
    requires Ok(w) && p in w.swapped
    ensures |w.spare| + 1 <= |w.slots|
  {
    assert OutOk(w.ptab, w.slots, p);
    var x: Byte := Page2(w.ptab[p]);
    SlotRoom2(w, x);
  }

  lemma SlotRoom2(w: World, x: Byte)
    requires Ok(w) && x in w.slots && !w.slots[x].Spare?
    ensures |w.spare| + 1 <= |w.slots|
  {
    var s := w.spare + [x];
    forall i, j | 0 <= i < j < |s| ensures s[i] != s[j] {
      assert w.slots[w.spare[i]] == Spare(i);
      assert j < |w.spare| ==> w.slots[w.spare[j]] == Spare(j);
    }
    forall i | 0 <= i < |s| ensures s[i] in w.slots.Keys {
      assert i < |w.spare| ==> w.slots[w.spare[i]] == Spare(i);
    }
    DistinctFit(s, w.slots.Keys);
    assert |w.slots.Keys| == |w.slots|;
  }

  /** Leaving the slot, reading it back and returning it: nobody, the process itself included, can tell. */
  lemma Returned3(w0: World, w1: World, w2: World, w3: World, p: nat)
    requires Unnoticed(w0, w1, p) && Unnoticed(w1, w2, p) && Unnoticed(w2, w3, -1)
    requires Live(w0, p) && Live(w2, p) && Space(w2, p) == Space(w0, p)
    requires p in w0.need && p in w2.need && w0.need[p] == w2.need[p]
    ensures Unnoticed(w0, w3, -1)
  {
    forall q: nat | Live(w0, q) ensures Same(w0, w3, q) {
      if q != p {
        assert Same(w0, w1, q);
        assert Same(w1, w2, q);
      }
      assert Same(w2, w3, q);
    }
  }

  lemma FirstChunk(sb: nat, ss: nat)
    requires Sizes(sb, ss)
    ensures ChunkStart(sb, ss, 0) == 0 && ChunkStart(sb, ss, 4) == ss
    ensures ChunkStart(sb, ss, 1) == BANK - sb && sb % BANK == ChunkBase(sb, 0) && sb / BANK == 0
  {
  }

  /** base, in blocks, snapped to the next bank of the 16-bit address space. */
  function NextBase(base: nat): nat {
    (base + BANK) / BANK * BANK % (4 * BANK)
  }

  function NextSize(sb: nat, ss: nat, i: nat): int {
    if i == 2 then ss + sb - 3 * BANK else BANK
  }

  /** How base and size move on to the next chunk. */
  lemma NextChunk(sb: nat, ss: nat, i: nat, base: nat)
    requires Sizes(sb, ss) && i < 4 && base / BANK == i
    ensures NextBase(base) % BANK == ChunkBase(sb, i + 1) && NextBase(base) / BANK == (i + 1) % 4
    ensures i < 3 ==> NextSize(sb, ss, i) == ChunkStart(sb, ss, i + 2) - ChunkStart(sb, ss, i + 1)
    ensures ChunkStart(sb, ss, i + 1) <= ss
  {
  }

  lemma UnnoticedOk(w: World, w': World, but: int)
    requires Unnoticed(w, w', but)
    ensures Ok(w) && Ok(w')
  {
  }

  lemma FreedSize(owner: map<Byte, Owner>, free: seq<Byte>, pages: seq<Byte>)
    ensures FreedOwner(owner, free, pages).Keys == owner.Keys && |FreedOwner(owner, free, pages)| == |owner|
  {
    var o := FreedOwner(owner, free, pages);
    assert o.Keys == owner.Keys;
    assert |o.Keys| == |o| && |owner.Keys| == |owner|;
  }

  /** What is needed of one resident process and of the top slot. */
  lemma OkFacts(w: World, p: nat)
    requires Ok(w) && p < |w.ptab| && Resident(w.ptab[p])
    ensures InOk(w, p) && 1 <= w.need[p] <= 4 && w.ptab[p].ptr[0] != NO_PAGE && |w.st.disk| == 256 * w.st.ss
    ensures w.spare != [] ==> w.spare[|w.spare| - 1] != 0 && w.spare[|w.spare| - 1] in w.slots
    ensures Mapped(w.st, w.ptab[p].ptr)
  {
    assert InOk(w, p) && MapOk(w.ptab, w.owner, p);
    assert PageOk(w.free, w.ptab, w.owner, w.ptab[p].ptr[0]);
    if w.spare != [] {
      assert w.slots[w.spare[|w.spare| - 1]] == Spare(|w.spare| - 1);
      assert SlotOk(w.spare, w.ptab, w.slots, w.swapped, w.spare[|w.spare| - 1]);
    }
  }

  lemma SpliceNone(s: seq<Blk>, at: nat, data: seq<Blk>)
    requires at + |data| <= |s|
    ensures Splice(s, at, data[..0]) == s
  {
  }

  lemma SpliceMore(s: seq<Blk>, at: nat, data: seq<Blk>, from: nat, to: nat)
    requires at + |data| <= |s| && from <= to <= |data|
    ensures Splice(Splice(s, at, data[..from]), at + from, data[from..to]) == Splice(s, at, data[..to])
  {
  }
}
