/** 16K banks and process swapping (Kernel/bank16k.c, Kernel/swap.c): what a page, a swap slot and a process's
    memory are at one moment. */
module Banks {
  type Byte = n: int | 0 <= n < 256
  type Word = n: int | 0 <= n < 65536
  /** The contents of 512 bytes. */
  type Blk = int

  /** Blocks in a bank. */
  const BANK: nat := 32
  /** The value that pagemap_free starts its comparison with, so that no page may have this number. */
  const NO_PAGE: Byte := 0xff

  type Map = m: seq<Byte> | |m| == 4 witness [0, 0, 0, 0]

  /** p_page and p_page2 as the four bytes of the map, and p_top. */
  datatype Proc = Proc(ptr: Map, top: Word)

  /** p_page is not 0. */
  predicate Resident(p: Proc) {
    p.ptr[0] != 0 || p.ptr[1] != 0
  }

  /** p_page2, which is the swap slot of a process that is swapped out. */
  function Page2(p: Proc): Word {
    var lo: int, hi: int := p.ptr[2], p.ptr[3];
    lo + 256 * hi
  }

  function Swapped(p: Proc, slot: Byte): Proc {
    p.(ptr := [0, 0, slot, 0])
  }

  // ------------------------------------------------------------------ maps_needed

  function MapsNeeded(top: Word, progtop: Word): (n: nat)
    ensures 1 <= n <= 4
  {
    (top + 0xFFFF - progtop) % 65536 / 16384 + 1
  }

  /** The banks hold a program and the common area if and only if the program ends by PROGTOP, and then they are
      not one too many. */
  lemma MapsFit(top: Word, progtop: Word)
    ensures top + (65536 - progtop) <= MapsNeeded(top, progtop) * 16384 <==> top <= progtop
    ensures top <= progtop ==> (MapsNeeded(top, progtop) - 1) * 16384 < top + (65536 - progtop)
  {
    MapsWrap(top, progtop);
  }

  /** Above PROGTOP the 16-bit sum wraps: the banks are those of the excess alone, one just above. */
  lemma MapsWrap(top: Word, progtop: Word)
    ensures top > progtop ==> MapsNeeded(top, progtop) == (top - progtop - 1) / 16384 + 1
    ensures top == progtop + 1 ==> MapsNeeded(top, progtop) == 1
  {
  }

  // ------------------------------------------------------------------ pages

  /** k different pages, the last repeated to fill the map. */
  predicate Shape(m: Map, k: nat) {
    && 1 <= k <= 4
    && (forall i, j :: 0 <= i < j < k ==> m[i] != m[j])
    && (forall i :: k <= i < 4 ==> m[i] == m[k - 1])
  }

  datatype Owner = Free(i: nat) | Held(p: nat)

  /** Every page is in the free stack once or in the map of one resident process. */
  ghost predicate PagesOk(free: seq<Byte>, ptab: seq<Proc>, owner: map<Byte, Owner>) {
    && (forall i :: 0 <= i < |free| ==> free[i] in owner && owner[free[i]] == Free(i))
    && (forall x :: x in owner ==> PageOk(free, ptab, owner, x))
    && (forall p :: 0 <= p < |ptab| && Resident(ptab[p]) ==> MapOk(ptab, owner, p))
  }

  predicate PageOk(free: seq<Byte>, ptab: seq<Proc>, owner: map<Byte, Owner>, x: Byte)
    requires x in owner
  {
    && x != 0 && x != NO_PAGE
    && match owner[x]
       case Free(i) => i < |free| && free[i] == x
       case Held(p) => p < |ptab| && Resident(ptab[p]) && x in ptab[p].ptr
  }

  predicate MapOk(ptab: seq<Proc>, owner: map<Byte, Owner>, p: nat)
    requires p < |ptab|
  {
    forall i :: 0 <= i < 4 ==> ptab[p].ptr[i] in owner && owner[ptab[p].ptr[i]] == Held(p)
  }

  lemma {:induction false} DistinctFit<T>(s: seq<T>, all: set<T>)
    requires (forall i, j :: 0 <= i < j < |s| ==> s[i] != s[j]) && forall i :: 0 <= i < |s| ==> s[i] in all
    ensures |s| <= |all|
    decreases |s|
  {
    if s != [] {
      var rest := s[..|s| - 1];
      DistinctFit(rest, all - {s[|s| - 1]});
    }
  }

  /** A process's pages can be pushed without the stack outgrowing the number of pages. */
  lemma RoomToFree(free: seq<Byte>, ptab: seq<Proc>, owner: map<Byte, Owner>, p: nat, k: nat)
    requires PagesOk(free, ptab, owner) && p < |ptab| && Resident(ptab[p]) && Shape(ptab[p].ptr, k)
    ensures |free| + k <= |owner|
  {
    var s := free + ptab[p].ptr[..k];
    assert MapOk(ptab, owner, p);
    forall i, j | 0 <= i < j < |s| ensures s[i] != s[j] {
      if j < |free| {
        assert owner[free[i]] == Free(i) && owner[free[j]] == Free(j);
      } else if i < |free| {
        assert owner[free[i]] == Free(i);
      }
    }
    DistinctFit(s, owner.Keys);
    assert |owner.Keys| == |owner|;
  }

  /** The k pages of a process go to the free stack. */
  function FreedOwner(owner: map<Byte, Owner>, free: seq<Byte>, pages: seq<Byte>): map<Byte, Owner> {
    map x | x in owner :: if x in pages then Free(|free| + IndexOf(pages, x)) else owner[x]
  }

  function IndexOf(s: seq<Byte>, x: Byte): (i: nat)
    ensures x in s ==> i < |s| && s[i] == x
  {
    if s == [] || s[0] == x then 0 else 1 + IndexOf(s[1..], x)
  }

  lemma FreePages(free: seq<Byte>, ptab: seq<Proc>, owner: map<Byte, Owner>, p: nat, k: nat, slot: Byte)
    requires PagesOk(free, ptab, owner) && p < |ptab| && Resident(ptab[p]) && Shape(ptab[p].ptr, k)
    ensures
      var pages := ptab[p].ptr[..k];
      PagesOk(free + pages, ptab[p := Swapped(ptab[p], slot)], FreedOwner(owner, free, pages))
  {
    var pages, ptab' := ptab[p].ptr[..k], ptab[p := Swapped(ptab[p], slot)];
    var free', owner' := free + pages, FreedOwner(owner, free, pages);
    assert MapOk(ptab, owner, p);
    forall i | 0 <= i < |free'| ensures free'[i] in owner' && owner'[free'[i]] == Free(i) {
      if i < |free| {
        assert owner[free[i]] == Free(i) && free[i] !in pages;
      } else {
        assert free'[i] == pages[i - |free|] && pages[i - |free|] in pages;
      }
    }
    forall x | x in owner' ensures PageOk(free', ptab', owner', x) {
      assert PageOk(free, ptab, owner, x);
      if owner[x] == Held(p) {
        PageInMap(ptab[p].ptr, k, x);
      }
    }
    forall q | 0 <= q < |ptab'| && Resident(ptab'[q]) ensures MapOk(ptab', owner', q) {
      assert MapOk(ptab, owner, q);
      forall i | 0 <= i < 4 ensures ptab'[q].ptr[i] in owner' && owner'[ptab'[q].ptr[i]] == Held(q) {
        assert owner[ptab[q].ptr[i]] == Held(q) && ptab[q].ptr[i] !in pages;
      }
    }
  }

  lemma PageInMap(m: Map, k: nat, x: Byte)
    requires Shape(m, k) && x in m
    ensures x in m[..k]
  {
    var i :| 0 <= i < 4 && m[i] == x;
    assert m[..k][if i < k then i else k - 1] == x;
  }

  /** The map made of the top k pages of the stack, the first one popped lowest. */
  function Popped(free: seq<Byte>, k: nat): Map
    requires 1 <= k <= 4 && k <= |free|
  {
    seq(4, i requires 0 <= i < 4 => free[|free| - 1 - (if i < k then i else k - 1)])
  }

  function TakenOwner(owner: map<Byte, Owner>, pages: seq<Byte>, p: nat): map<Byte, Owner> {
    map x | x in owner :: if x in pages then Held(p) else owner[x]
  }

  lemma TakePages(free: seq<Byte>, ptab: seq<Proc>, owner: map<Byte, Owner>, p: nat, k: nat)
    requires PagesOk(free, ptab, owner) && p < |ptab| && !Resident(ptab[p]) && 1 <= k <= 4 && k <= |free|
    ensures
      var m := Popped(free, k);
      && Shape(m, k)
      && PagesOk(free[..|free| - k], ptab[p := ptab[p].(ptr := m)], TakenOwner(owner, m, p))
      && Resident(ptab[p].(ptr := m))
  {
    var m := Popped(free, k);
    var free', ptab', owner' := free[..|free| - k], ptab[p := ptab[p].(ptr := m)], TakenOwner(owner, m, p);
    PoppedPages(free, ptab, owner, k);
    hide Popped;
    forall i | 0 <= i < |free'| ensures free'[i] in owner' && owner'[free'[i]] == Free(i) {
      assert owner[free[i]] == Free(i);
    }
    forall x | x in owner' ensures PageOk(free', ptab', owner', x) {
      assert PageOk(free, ptab, owner, x);
    }
    forall q | 0 <= q < |ptab'| && Resident(ptab'[q]) ensures MapOk(ptab', owner', q) {
      if q != p {
        assert MapOk(ptab, owner, q);
        forall i | 0 <= i < 4 ensures ptab'[q].ptr[i] in owner' && owner'[ptab'[q].ptr[i]] == Held(q) {
          assert owner[ptab[q].ptr[i]] == Held(q);
        }
      }
    }
  }

  lemma FreeAt(free: seq<Byte>, ptab: seq<Proc>, owner: map<Byte, Owner>, i: nat)
    requires PagesOk(free, ptab, owner) && i < |free|
    ensures free[i] in owner && owner[free[i]] == Free(i) && free[i] != 0
  {
    assert owner[free[i]] == Free(i) && PageOk(free, ptab, owner, free[i]);
  }

  /** Entry i of the map is that far down the stack. */
  function Depth(n: nat, k: nat, i: nat): nat
    requires 1 <= k <= n
  {
    n - 1 - (if i < k then i else k - 1)
  }

  lemma PoppedAt(free: seq<Byte>, ptab: seq<Proc>, owner: map<Byte, Owner>, k: nat, i: nat)
    requires PagesOk(free, ptab, owner) && 1 <= k <= 4 && k <= |free| && i < 4
    ensures var x := Popped(free, k)[i]; x in owner && owner[x] == Free(Depth(|free|, k, i)) && x != 0
    ensures i >= k ==> Popped(free, k)[i] == Popped(free, k)[k - 1]
  {
    hide PagesOk;
    FreeAt(free, ptab, owner, Depth(|free|, k, i));
  }

  /** The popped pages: different, and exactly the top of the stack. */
  lemma PoppedPages(free: seq<Byte>, ptab: seq<Proc>, owner: map<Byte, Owner>, k: nat)
    requires PagesOk(free, ptab, owner) && 1 <= k <= 4 && k <= |free|
    ensures
      var m := Popped(free, k);
      && Shape(m, k) && (forall i :: 0 <= i < 4 ==> m[i] != 0 && m[i] in owner)
      && (forall x :: x in m ==> x in owner && owner[x].Free? && owner[x].i >= |free| - k)
      && (forall x :: x in owner && owner[x].Free? && owner[x].i >= |free| - k ==> x in m)
  {
    hide PagesOk, Popped;
    var m := Popped(free, k);
    forall i | 0 <= i < 4
      ensures m[i] in owner && owner[m[i]] == Free(Depth(|free|, k, i)) && m[i] != 0 && (i >= k ==> m[i] == m[k - 1])
    {
      PoppedAt(free, ptab, owner, k, i);
    }
    forall x | x in owner && owner[x].Free? && owner[x].i >= |free| - k ensures x in m {
      TopOfStack(free, ptab, owner, k, x);
    }
  }

  lemma TopOfStack(free: seq<Byte>, ptab: seq<Proc>, owner: map<Byte, Owner>, k: nat, x: Byte)
    requires PagesOk(free, ptab, owner) && 1 <= k <= 4 && k <= |free|
    requires x in owner && owner[x].Free? && owner[x].i >= |free| - k
    ensures x in Popped(free, k)
  {
    assert PageOk(free, ptab, owner, x);
    assert Popped(free, k)[|free| - 1 - owner[x].i] == x;
  }

  /** One page of a map goes to the stack, the common page taking its place. */
  lemma DropPage(free: seq<Byte>, ptab: seq<Proc>, owner: map<Byte, Owner>, p: nat, i: nat)
    requires PagesOk(free, ptab, owner) && p < |ptab| && Resident(ptab[p]) && i < 3
    requires forall j :: 0 <= j < 4 && j != i ==> ptab[p].ptr[j] != ptab[p].ptr[i]
    ensures
      var x, m := ptab[p].ptr[i], ptab[p].ptr[i := ptab[p].ptr[3]];
      && PagesOk(free + [x], ptab[p := ptab[p].(ptr := m)], owner[x := Free(|free|)])
      && Resident(ptab[p].(ptr := m)) && x in owner && |free| + 1 <= |owner|
  {
    var x, m := ptab[p].ptr[i], ptab[p].ptr[i := ptab[p].ptr[3]];
    var free', ptab', owner' := free + [x], ptab[p := ptab[p].(ptr := m)], owner[x := Free(|free|)];
    assert MapOk(ptab, owner, p);
    forall j | 0 <= j < 4 ensures m[j] in owner && owner[m[j]] == Held(p) && m[j] != 0 && m[j] != x {
      assert m[j] == ptab[p].ptr[if j == i then 3 else j];
      assert PageOk(free, ptab, owner, m[j]);
    }
    forall j | 0 <= j < |free'| ensures free'[j] in owner' && owner'[free'[j]] == Free(j) {
      assert j < |free| ==> owner[free[j]] == Free(j);
    }
    forall y | y in owner' ensures PageOk(free', ptab', owner', y) {
      assert PageOk(free, ptab, owner, y);
      if y != x && owner[y] == Held(p) {
        KeepsPage(ptab[p].ptr, i, ptab[p].ptr[3], y);
      }
    }
    forall q | 0 <= q < |ptab'| && Resident(ptab'[q]) ensures MapOk(ptab', owner', q) {
      assert q != p ==> MapOk(ptab, owner, q);
    }
    FreeFit(free', owner');
    assert owner'.Keys == owner.Keys && |owner'.Keys| == |owner'| && |owner.Keys| == |owner|;
  }

  lemma KeepsPage(m: Map, i: nat, c: Byte, y: Byte)
    requires i < 4 && y in m && y != m[i]
    ensures y in m[i := c]
  {
    var j :| 0 <= j < 4 && m[j] == y;
    assert m[i := c][j] == y;
  }

  lemma FreeFit(free: seq<Byte>, owner: map<Byte, Owner>)
    requires forall i :: 0 <= i < |free| ==> free[i] in owner && owner[free[i]] == Free(i)
    ensures |free| <= |owner|
  {
    forall i, j | 0 <= i < j < |free| ensures free[i] != free[j] {
      assert owner[free[i]] == Free(i) && owner[free[j]] == Free(j);
    }
    DistinctFit(free, owner.Keys);
    assert |owner.Keys| == |owner|;
  }

  /** The top page of the stack goes into a map in place of a copy of the common page. */
  lemma AddPage(free: seq<Byte>, ptab: seq<Proc>, owner: map<Byte, Owner>, p: nat, i: nat)
    requires PagesOk(free, ptab, owner) && p < |ptab| && Resident(ptab[p]) && i < 3 && free != []
    requires ptab[p].ptr[i] == ptab[p].ptr[3]
    ensures
      var x, m := free[|free| - 1], ptab[p].ptr[i := free[|free| - 1]];
      && PagesOk(free[..|free| - 1], ptab[p := ptab[p].(ptr := m)], owner[x := Held(p)])
      && Resident(ptab[p].(ptr := m)) && x in owner && x !in ptab[p].ptr
  {
    var x, m := free[|free| - 1], ptab[p].ptr[i := free[|free| - 1]];
    var free', ptab', owner' := free[..|free| - 1], ptab[p := ptab[p].(ptr := m)], owner[x := Held(p)];
    assert MapOk(ptab, owner, p) && owner[x] == Free(|free| - 1) && PageOk(free, ptab, owner, x);
    forall j | 0 <= j < 4 ensures m[j] in owner' && owner'[m[j]] == Held(p) && m[j] != 0 && ptab[p].ptr[j] != x {
      assert PageOk(free, ptab, owner, ptab[p].ptr[j]);
    }
    forall j | 0 <= j < |free'| ensures free'[j] in owner' && owner'[free'[j]] == Free(j) {
      assert owner[free[j]] == Free(j);
    }
    forall y | y in owner' ensures PageOk(free', ptab', owner', y) {
      assert PageOk(free, ptab, owner, y);
      if y == x {
        assert m[i] == x;
      } else if owner[y] == Held(p) {
        if y == ptab[p].ptr[i] {
          assert m[3] == y;
        } else {
          KeepsPage(ptab[p].ptr, i, x, y);
        }
      }
    }
    forall q | 0 <= q < |ptab'| && Resident(ptab'[q]) ensures MapOk(ptab', owner', q) {
      if q != p {
        assert MapOk(ptab, owner, q);
        forall j | 0 <= j < 4 ensures ptab'[q].ptr[j] in owner' && owner'[ptab'[q].ptr[j]] == Held(q) {
          assert owner[ptab[q].ptr[j]] == Held(q);
        }
      }
    }
  }

  // ------------------------------------------------------------------ swap slots

  /** A slot is free, holds a process that is swapped out, or is being read back. */
  datatype SlotState = Spare(i: nat) | Holds(p: nat) | Moving

  ghost predicate SlotsOk(spare: seq<Byte>, ptab: seq<Proc>, slots: map<Byte, SlotState>, swapped: set<nat>) {
    && (forall i :: 0 <= i < |spare| ==> spare[i] in slots && slots[spare[i]] == Spare(i))
    && (forall x :: x in slots ==> SlotOk(spare, ptab, slots, swapped, x))
    && (forall p :: p in swapped ==> OutOk(ptab, slots, p))
  }

  predicate SlotOk(spare: seq<Byte>, ptab: seq<Proc>, slots: map<Byte, SlotState>, swapped: set<nat>, x: Byte)
    requires x in slots
  {
    && x != 0
    && match slots[x]
       case Spare(i) => i < |spare| && spare[i] == x
       case Holds(p) => p in swapped && p < |ptab| && Page2(ptab[p]) == x
       case Moving => true
  }

  predicate OutOk(ptab: seq<Proc>, slots: map<Byte, SlotState>, p: nat) {
    p < |ptab| && !Resident(ptab[p]) && Page2(ptab[p]) < 256 && Page2(ptab[p]) in slots && slots[Page2(ptab[p])] == Holds(p)
  }

  /** The top slot goes to a process. */
  lemma TakeSlot(spare: seq<Byte>, ptab: seq<Proc>, slots: map<Byte, SlotState>, swapped: set<nat>, p: nat)
    requires SlotsOk(spare, ptab, slots, swapped) && spare != [] && p < |ptab| && Resident(ptab[p])
    ensures
      var slot := spare[|spare| - 1];
      && slot != 0
      && SlotsOk(spare[..|spare| - 1], ptab[p := Swapped(ptab[p], slot)], slots[slot := Holds(p)], swapped + {p})
  {
    var slot := spare[|spare| - 1];
    var spare', ptab', slots', swapped' := spare[..|spare| - 1], ptab[p := Swapped(ptab[p], slot)], slots[slot := Holds(p)], swapped + {p};
    assert slots[slot] == Spare(|spare| - 1) && SlotOk(spare, ptab, slots, swapped, slot);
    assert p !in swapped by { assert p in swapped ==> OutOk(ptab, slots, p); }
    forall i | 0 <= i < |spare'| ensures spare'[i] in slots' && slots'[spare'[i]] == Spare(i) {
      assert slots[spare[i]] == Spare(i);
    }
    forall x | x in slots' ensures SlotOk(spare', ptab', slots', swapped', x) {
      assert SlotOk(spare, ptab, slots, swapped, x);
    }
    forall q | q in swapped' ensures OutOk(ptab', slots', q) {
      assert q != p ==> OutOk(ptab, slots, q);
    }
  }

  /** A swapped process gets memory; its slot is on the move. */
  lemma LeaveSlot(spare: seq<Byte>, ptab: seq<Proc>, slots: map<Byte, SlotState>, swapped: set<nat>, p: nat, m: Map)
    requires SlotsOk(spare, ptab, slots, swapped) && p in swapped && p < |ptab|
    ensures Page2(ptab[p]) < 256
    ensures SlotsOk(spare, ptab[p := ptab[p].(ptr := m)], slots[Page2(ptab[p]) := Moving], swapped - {p})
  {
    assert OutOk(ptab, slots, p);
    var slot: Byte := Page2(ptab[p]);
    var ptab', slots', swapped' := ptab[p := ptab[p].(ptr := m)], slots[slot := Moving], swapped - {p};
    forall i | 0 <= i < |spare| ensures spare[i] in slots' && slots'[spare[i]] == Spare(i) {
      assert slots[spare[i]] == Spare(i);
    }
    forall x | x in slots' ensures SlotOk(spare, ptab', slots', swapped', x) {
      assert SlotOk(spare, ptab, slots, swapped, x);
    }
    forall q | q in swapped' ensures OutOk(ptab', slots', q) {
      assert OutOk(ptab, slots, q);
    }
  }

  /** The slot is free again. */
  lemma ReturnSlot(spare: seq<Byte>, ptab: seq<Proc>, slots: map<Byte, SlotState>, swapped: set<nat>, x: Byte)
    requires SlotsOk(spare, ptab, slots, swapped) && x in slots && slots[x] == Moving
    ensures SlotsOk(spare + [x], ptab, slots[x := Spare(|spare|)], swapped) && |spare| + 1 <= |slots|
  {
    var spare', slots' := spare + [x], slots[x := Spare(|spare|)];
    forall i | 0 <= i < |spare'| ensures spare'[i] in slots' && slots'[spare'[i]] == Spare(i) {
      assert i < |spare| ==> slots[spare[i]] == Spare(i);
    }
    forall y | y in slots' ensures SlotOk(spare', ptab, slots', swapped, y) {
      assert SlotOk(spare, ptab, slots, swapped, y);
    }
    forall q | q in swapped ensures OutOk(ptab, slots', q) {
      assert OutOk(ptab, slots, q);
    }
    SpareFit(spare', slots');
  }

  lemma SpareFit(spare: seq<Byte>, slots: map<Byte, SlotState>)
    requires forall i :: 0 <= i < |spare| ==> spare[i] in slots && slots[spare[i]] == Spare(i)
    ensures |spare| <= |slots|
  {
    forall i, j | 0 <= i < j < |spare| ensures spare[i] != spare[j] {
      assert slots[spare[i]] == Spare(i) && slots[spare[j]] == Spare(j);
    }
    DistinctFit(spare, slots.Keys);
    assert |slots.Keys| == |slots|;
  }

  /** A process that is not swapped out changes its map. */
  lemma SlotsKeep(spare: seq<Byte>, ptab: seq<Proc>, slots: map<Byte, SlotState>, swapped: set<nat>, p: nat, pr: Proc)
    requires SlotsOk(spare, ptab, slots, swapped) && p < |ptab| && p !in swapped
    ensures SlotsOk(spare, ptab[p := pr], slots, swapped)
  {
    forall x | x in slots ensures SlotOk(spare, ptab[p := pr], slots, swapped, x) {
      assert SlotOk(spare, ptab, slots, swapped, x);
    }
    forall q | q in swapped ensures OutOk(ptab[p := pr], slots, q) {
      assert OutOk(ptab, slots, q);
    }
  }

  // ------------------------------------------------------------------ address spaces

  /** Where process memory is: bank contents by page, and the swap device.  sb is SWAPBASE in blocks of 512,
      ss is SWAP_SIZE. */
  datatype Store = Store(mem: map<Byte, seq<Blk>>, disk: seq<Blk>, sb: nat, ss: nat)

  predicate Sizes(sb: nat, ss: nat) {
    sb < BANK && 3 * BANK <= sb + ss <= 4 * BANK
  }

  ghost predicate StoreOk(st: Store, owner: map<Byte, Owner>) {
    && Sizes(st.sb, st.ss) && |st.disk| == 256 * st.ss
    && forall x :: x in owner ==> x in st.mem && |st.mem[x]| == BANK
  }

  /** The blocks of a process that swapping saves, from SWAPBASE up, as its map shows them. */
  function InMemory(st: Store, m: Map): (s: seq<Blk>)
    requires Sizes(st.sb, st.ss) && forall i :: 0 <= i < 4 ==> m[i] in st.mem && |st.mem[m[i]]| == BANK
    ensures |s| == st.ss
  {
    seq(st.ss, j requires 0 <= j < st.ss => st.mem[m[(st.sb + j) / BANK]][(st.sb + j) % BANK])
  }

  function OnDisk(disk: seq<Blk>, ss: nat, slot: nat): (s: seq<Blk>)
    requires slot < 256 && |disk| == 256 * ss
    ensures |s| == ss
  {
    SlotInDisk(slot, ss);
    disk[slot * ss..(slot + 1) * ss]
  }

  lemma SlotInDisk(slot: nat, ss: nat)
    requires slot < 256
    ensures (slot + 1) * ss <= 256 * ss && (slot + 1) * ss == slot * ss + ss
  {
  }

  lemma SlotsApart(s: nat, t: nat, ss: nat)
    requires s != t
    ensures (s + 1) * ss <= t * ss || (t + 1) * ss <= s * ss
  {
    if s < t {
      Product(s + 1, t - s - 1, ss);
    } else {
      Product(t + 1, s - t - 1, ss);
    }
  }

  lemma Product(a: nat, b: nat, c: nat)
    ensures a * c <= (a + b) * c
  {
    assert (a + b) * c == a * c + b * c;
  }

  /** Blocks of the banks that share the last of k pages are the same blocks. */
  predicate Repeats(space: seq<Blk>, sb: nat, k: nat) {
    forall i, j :: 0 <= i < |space| && 0 <= j < |space| && SharedPlace(sb, k, i, j) ==> space[i] == space[j]
  }

  predicate SharedPlace(sb: nat, k: nat, i: nat, j: nat) {
    k - 1 <= (sb + i) / BANK && k - 1 <= (sb + j) / BANK && (sb + i) % BANK == (sb + j) % BANK
  }

  lemma MemoryRepeats(st: Store, m: Map, k: nat)
    requires Sizes(st.sb, st.ss) && (forall i :: 0 <= i < 4 ==> m[i] in st.mem && |st.mem[m[i]]| == BANK) && Shape(m, k)
    ensures Repeats(InMemory(st, m), st.sb, k)
  {
  }

  /** Where chunk i of the four starts, how long it is and where in its bank it begins. */
  function ChunkStart(sb: nat, ss: nat, i: nat): nat
    requires Sizes(sb, ss) && i <= 4
  {
    if i == 0 then 0 else if i == 4 then ss else BANK * i - sb
  }

  function ChunkBase(sb: nat, i: nat): nat {
    if i == 0 then sb else 0
  }

  /** Splice: what swapwrite does to the device and swapread to a bank. */
  function Splice(s: seq<Blk>, at: nat, data: seq<Blk>): (t: seq<Blk>)
    requires at + |data| <= |s|
    ensures |t| == |s| && t[at..at + |data|] == data
    ensures forall k :: 0 <= k < |s| ==> t[k] == if at <= k < at + |data| then data[k - at] else s[k]
  {
    s[..at] + data + s[at + |data|..]
  }

  /** A chunk in memory is a stretch of the address space. */
  lemma ChunkIs(st: Store, m: Map, i: nat)
    requires Sizes(st.sb, st.ss) && i < 4 && forall i :: 0 <= i < 4 ==> m[i] in st.mem && |st.mem[m[i]]| == BANK
    ensures
      var from, to, base := ChunkStart(st.sb, st.ss, i), ChunkStart(st.sb, st.ss, i + 1), ChunkBase(st.sb, i);
      && from <= to <= st.ss && base + (to - from) <= BANK
      && InMemory(st, m)[from..to] == st.mem[m[i]][base..base + (to - from)]
  {
    var from, to, base := ChunkStart(st.sb, st.ss, i), ChunkStart(st.sb, st.ss, i + 1), ChunkBase(st.sb, i);
    forall j | from <= j < to ensures InMemory(st, m)[j] == st.mem[m[i]][base + (j - from)] {
      ChunkPlace(st.sb, st.ss, i, j);
    }
  }

  lemma ChunkPlace(sb: nat, ss: nat, i: nat, j: nat)
    requires Sizes(sb, ss) && i < 4 && ChunkStart(sb, ss, i) <= j < ChunkStart(sb, ss, i + 1)
    ensures (sb + j) / BANK == i && (sb + j) % BANK == ChunkBase(sb, i) + (j - ChunkStart(sb, ss, i))
  {
  }

  predicate Mapped(st: Store, m: Map) {
    Sizes(st.sb, st.ss) && forall i :: 0 <= i < 4 ==> m[i] in st.mem && |st.mem[m[i]]| == BANK
  }

  lemma ChunkRoom(sb: nat, ss: nat, i: nat)
    requires Sizes(sb, ss) && i < 4
    ensures ChunkStart(sb, ss, i) <= ChunkStart(sb, ss, i + 1) <= ss
    ensures ChunkBase(sb, i) + (ChunkStart(sb, ss, i + 1) - ChunkStart(sb, ss, i)) <= BANK
  {
  }

  /** swapread of chunk i into its bank. */
  function AfterChunk(st: Store, m: Map, space: seq<Blk>, i: nat): Store
    requires Mapped(st, m) && i < 4 && |space| == st.ss
  {
    ChunkRoom(st.sb, st.ss, i);
    var chunk := space[ChunkStart(st.sb, st.ss, i)..ChunkStart(st.sb, st.ss, i + 1)];
    st.(mem := st.mem[m[i] := Splice(st.mem[m[i]], ChunkBase(st.sb, i), chunk)])
  }

  lemma AfterMapped(st: Store, m: Map, space: seq<Blk>, i: nat)
    requires Mapped(st, m) && i < 4 && |space| == st.ss
    ensures var st' := AfterChunk(st, m, space, i);
      Mapped(st', m) && st'.disk == st.disk && st'.sb == st.sb && st'.ss == st.ss && st'.mem.Keys == st.mem.Keys
    ensures var st' := AfterChunk(st, m, space, i); forall x :: x in st.mem && x != m[i] ==> st'.mem[x] == st.mem[x]
  {
  }

  /** Reading chunk i back leaves the chunks before it right, even where they share its page. */
  lemma ChunkRead(st: Store, m: Map, k: nat, space: seq<Blk>, i: nat)
    requires Mapped(st, m) && i < 4 && Shape(m, k) && |space| == st.ss && Repeats(space, st.sb, k)
    requires ChunkStart(st.sb, st.ss, i) <= st.ss && ChunkStart(st.sb, st.ss, i + 1) <= st.ss
    requires InMemory(st, m)[..ChunkStart(st.sb, st.ss, i)] == space[..ChunkStart(st.sb, st.ss, i)]
    ensures var st' := AfterChunk(st, m, space, i);
      Mapped(st', m) && InMemory(st', m)[..ChunkStart(st.sb, st.ss, i + 1)] == space[..ChunkStart(st.sb, st.ss, i + 1)]
  {
    hide AfterChunk, ChunkStart, Repeats, Shape;
    AfterMapped(st, m, space, i);
    var st', to := AfterChunk(st, m, space, i), ChunkStart(st.sb, st.ss, i + 1);
    forall j | 0 <= j < to ensures InMemory(st', m)[j] == space[j] {
      BlockRead(st, m, k, space, i, j);
    }
  }

  lemma BlockRead(st: Store, m: Map, k: nat, space: seq<Blk>, i: nat, j: nat)
    requires Mapped(st, m) && i < 4 && Shape(m, k) && |space| == st.ss && Repeats(space, st.sb, k)
    requires ChunkStart(st.sb, st.ss, i) <= st.ss && j < ChunkStart(st.sb, st.ss, i + 1) <= st.ss
    requires InMemory(st, m)[..ChunkStart(st.sb, st.ss, i)] == space[..ChunkStart(st.sb, st.ss, i)]
    ensures var st' := AfterChunk(st, m, space, i); Mapped(st', m) && InMemory(st', m)[j] == space[j]
  {
    hide Repeats, Shape, ChunkStart, ChunkBase, AfterChunk, SharedPlace;
    AfterMapped(st, m, space, i);
    ChunkRoom(st.sb, st.ss, i);
    var from, to, base := ChunkStart(st.sb, st.ss, i), ChunkStart(st.sb, st.ss, i + 1), ChunkBase(st.sb, i);
    var b, o := (st.sb + j) / BANK, (st.sb + j) % BANK;
    AfterBlock(st, m, space, i, m[b], o);
    if m[b] == m[i] && base <= o < base + (to - from) {
      ChunkShares(st.sb, st.ss, m, k, i, j);
      ShareBlock(space, st.sb, k, j, from + (o - base));
    } else {
      if j >= from {
        ChunkPlace(st.sb, st.ss, i, j);
      }
      assert j < from;
      assert InMemory(st, m)[..from][j] == space[..from][j];
    }
  }

  /** One block of memory after chunk i is read. */
  lemma AfterBlock(st: Store, m: Map, space: seq<Blk>, i: nat, x: Byte, o: nat)
    requires Mapped(st, m) && i < 4 && |space| == st.ss && x in st.mem && |st.mem[x]| == BANK && o < BANK
    requires ChunkStart(st.sb, st.ss, i) <= ChunkStart(st.sb, st.ss, i + 1) <= st.ss
    ensures
      var from, to, base := ChunkStart(st.sb, st.ss, i), ChunkStart(st.sb, st.ss, i + 1), ChunkBase(st.sb, i);
      var st' := AfterChunk(st, m, space, i);
      && x in st'.mem && |st'.mem[x]| == BANK
      && st'.mem[x][o] == if x == m[i] && base <= o < base + (to - from) then space[from + (o - base)] else st.mem[x][o]
  {
    hide ChunkStart, ChunkBase;
    ChunkRoom(st.sb, st.ss, i);
  }

  /** A block in a bank with chunk i's page, at a place of chunk i, is chunk i's block there or shares its place. */
  lemma ChunkShares(sb: nat, ss: nat, m: Map, k: nat, i: nat, j: nat)
    requires Sizes(sb, ss) && Shape(m, k) && i < 4 && j < ss && m[(sb + j) / BANK] == m[i]
    requires ChunkStart(sb, ss, i) <= ChunkStart(sb, ss, i + 1) <= ss
    requires ChunkBase(sb, i) <= (sb + j) % BANK < ChunkBase(sb, i) + (ChunkStart(sb, ss, i + 1) - ChunkStart(sb, ss, i))
    ensures
      var j' := ChunkStart(sb, ss, i) + ((sb + j) % BANK - ChunkBase(sb, i));
      j' < ss && (j == j' || SharedPlace(sb, k, j, j'))
  {
    hide Shape, ChunkStart, ChunkBase;
    var j' := ChunkStart(sb, ss, i) + ((sb + j) % BANK - ChunkBase(sb, i));
    ChunkPlace(sb, ss, i, j');
    if (sb + j) / BANK != i {
      SamePage(m, k, (sb + j) / BANK, i);
    }
  }

  lemma ShareBlock(space: seq<Blk>, sb: nat, k: nat, i: nat, j: nat)
    requires Repeats(space, sb, k) && i < |space| && j < |space| && (i == j || SharedPlace(sb, k, i, j))
    ensures space[i] == space[j]
  {
  }

  lemma SamePage(m: Map, k: nat, b: nat, i: nat)
    requires Shape(m, k) && b < 4 && i < 4 && m[b] == m[i] && b != i
    ensures k - 1 <= b && k - 1 <= i
  {
    assert m[if b < k then b else k - 1] == m[if i < k then i else k - 1];
  }
}
