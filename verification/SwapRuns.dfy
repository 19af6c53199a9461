/** Any run of processes that start, end, change size and are swapped out and in. */
module SwapRuns {
  import opened Banks
  import opened Victims
  import opened Swapping

  /** Starting and bringing back a process may swap others out; which ones depends on what the scheduler keeps. */
  datatype Op =
    | Begin(p: nat, top: Word, sched: Sched) | End(p: nat) | Resize(p: nat, size: Word) | Out(p: nat)
    | In(p: nat, sched: Sched)

  predicate OpOk(op: Op, n: nat) {
    match op
    case Begin(_, _, sched) => SchedOk(sched, n)
    case In(_, sched) => SchedOk(sched, n)
    case _ => true
  }

  /** Every process has the banks its size needs, and used is the processes there are. */
  ghost predicate Known(w: World, progtop: Word, used: set<nat>) {
    && (forall p: nat :: Live(w, p) ==> p in w.need && w.need[p] == MapsNeeded(w.ptab[p].top, progtop))
    && (forall p: nat :: p in used <==> Live(w, p))
  }

  /** The process an operation starts, ends or resizes; swapping is not supposed to touch anybody. */
  function Touched(op: Op): int {
    match op
    case Begin(p, _, _) => p
    case End(p) => p
    case Resize(p, _) => p
    case Out(_) => -1
    case In(_, _) => -1
  }

  /** The size noted for a process does not matter to the banks. */
  lemma TopSet(w: World, p: nat, top: Word)
    requires Ok(w) && p < |w.ptab|
    ensures Unnoticed(w, w.(ptab := w.ptab[p := w.ptab[p].(top := top)]), -1)
  {
    hide Shape, Repeats, InMemory, OnDisk;
    var w' := w.(ptab := w.ptab[p := w.ptab[p].(top := top)]);
    TopPages(w, p, top);
    forall q | 0 <= q < |w'.ptab| && Resident(w'.ptab[q]) ensures InOk(w', q) {
      assert InOk(w, q);
    }
    forall q | q in w'.swapped ensures AwayOk(w', q) {
      assert AwayOk(w, q);
    }
    forall q: nat | Live(w, q) ensures Same(w, w', q) {
      if Resident(w.ptab[q]) {
        assert InOk(w, q);
      } else {
        assert AwayOk(w, q) && AwayOk(w', q);
      }
    }
  }

  lemma TopPages(w: World, p: nat, top: Word)
    requires Ok(w) && p < |w.ptab|
    ensures var ptab := w.ptab[p := w.ptab[p].(top := top)];
      PagesOk(w.free, ptab, w.owner) && SlotsOk(w.spare, ptab, w.slots, w.swapped)
  {
    var ptab := w.ptab[p := w.ptab[p].(top := top)];
    forall x | x in w.owner ensures PageOk(w.free, ptab, w.owner, x) {
      assert PageOk(w.free, w.ptab, w.owner, x);
    }
    forall q | 0 <= q < |ptab| && Resident(ptab[q]) ensures MapOk(ptab, w.owner, q) {
      assert MapOk(w.ptab, w.owner, q);
    }
    forall x | x in w.slots ensures SlotOk(w.spare, ptab, w.slots, w.swapped, x) {
      assert SlotOk(w.spare, w.ptab, w.slots, w.swapped, x);
    }
    forall q | q in w.swapped ensures OutOk(ptab, w.slots, q) {
      assert OutOk(w.ptab, w.slots, q);
    }
  }

  method SetTop(s: System, p: nat, top: Word)
    requires s.Valid() && p < s.ptab.Length
    modifies s.ptab
    ensures s.Valid() && Unnoticed(old(s.Now()), s.Now(), -1) && s.ptab[p] == old(s.ptab[p]).(top := top)
    ensures forall q :: 0 <= q < s.ptab.Length && q != p ==> s.ptab[q] == old(s.ptab[q])
  {
    hide Ok, Unnoticed;
    ghost var w := s.Now();
    TopSet(w, p, top);
    s.ptab[p] := s.ptab[p].(top := top);
    assert s.Now() == w.(ptab := w.ptab[p := w.ptab[p].(top := top)]);
    UnnoticedOk(w, s.Now(), -1);
  }

  /** What one operation does: a start succeeds exactly when there is room for the process or victims enough to
      make it, an end returns its pages, a resize succeeds exactly when the pages at hand suffice and keeps the
      common page and the low banks of both sizes, a swap-out needs a slot and nothing else, and a swap-in has
      the room it needs.  Operations on processes that are not there, or not in the right place, do nothing. */
  ghost predicate Step(w: World, op: Op, progtop: Word, w': World) {
    && Unnoticed(w, w', Touched(op)) && |w'.ptab| == |w.ptab| && OpOk(op, |w.ptab|)
    && match op
       case Begin(p, top, sched) =>
         if p >= |w.ptab| || Live(w, p) then w' == w
         else if RoomIn(w, p, top, progtop, sched) then
           Live(w', p) && Resident(w'.ptab[p]) && w'.ptab[p].top == top && p in w'.need && w'.need[p] == MapsNeeded(top, progtop)
         else !Live(w', p)
       case End(p) =>
         if p >= |w.ptab| || !Resident(w.ptab[p]) then w' == w
         else !Live(w', p) && p in w.need && |w'.free| == |w.free| + w.need[p]
       case Resize(p, size) =>
         if p >= |w.ptab| || !Resident(w.ptab[p]) then w' == w
         else
           && p in w.need && p in w'.need && Resident(w'.ptab[p])
           && if MapsNeeded(size, progtop) > w.need[p] + |w.free| then w' == w
              else
                && w'.need[p] == MapsNeeded(size, progtop) && w'.ptab[p].top == size && w'.st.mem == w.st.mem
                && |w'.free| + w'.need[p] == |w.free| + w.need[p] && w'.ptab[p].ptr[3] == w.ptab[p].ptr[3]
                && forall j :: 0 <= j < Below(w.need[p], w'.need[p]) - 1 ==> w'.ptab[p].ptr[j] == w.ptab[p].ptr[j]
       case Out(p) =>
         if p >= |w.ptab| || !Resident(w.ptab[p]) || w.spare == [] then w' == w
         else !Resident(w'.ptab[p]) && Live(w', p)
       case In(p, sched) =>
         if p >= |w.ptab| || !Live(w, p) || Resident(w.ptab[p]) then w' == w
         else RoomIn(w, p, w.ptab[p].top, progtop, sched) && Resident(w'.ptab[p])
  }

  /** A swap-in without room, which frees a slot that is still in use. */
  ghost predicate Stuck(w: World, op: Op, progtop: Word) {
    && op.In? && op.p < |w.ptab| && Live(w, op.p) && !Resident(w.ptab[op.p]) && SchedOk(op.sched, |w.ptab|)
    && !RoomIn(w, op.p, w.ptab[op.p].top, progtop, op.sched)
  }

  /** The slot that the next swap-out would take is the one the process is in. */
  ghost predicate Lost(s: System, p: nat)
    reads s, s.swapmap, s.ptab
  {
    && p < s.ptab.Length && !Resident(s.ptab[p]) && 0 < s.swapptr <= s.swapmap.Length
    && s.swapmap[s.swapptr - 1] == Page2(s.ptab[p])
  }

  lemma SameFlags(a: seq<Proc>, b: seq<Proc>, p: nat, top: Word)
    requires p < |a| && b == a[p := a[p].(top := top)]
    ensures Flags(a) == Flags(b) && Resident(b[p]) == Resident(a[p])
  {
  }

  method Start(s: System, p: nat, top: Word, sched: Sched, used: set<nat>) returns (used': set<nat>)
    requires s.Valid() && Known(s.Now(), s.progtop, used) && p < s.ptab.Length && p !in used && SchedOk(sched, s.ptab.Length)
    modifies s, s.pfree, s.ptab
    ensures s.Valid() && Known(s.Now(), s.progtop, used') && Step(old(s.Now()), Begin(p, top, sched), s.progtop, s.Now())
    ensures s.owner.Keys == old(s.owner.Keys) && s.slots.Keys == old(s.slots.Keys)
  {
    hide Ok, MapsNeeded, Space, Enough, Resident, Flags;
    ghost var w0 := s.Now();
    SetTop(s, p, top);
    ghost var w1 := s.Now();
    assert !Live(w0, p) && !Live(w1, p);
    SameFlags(w0.ptab, w1.ptab, p, top);
    var err := s.PagemapAlloc(p, sched);
    used' := if err then used else used + {p};
    Weaken(w0, w1, p);
    if err {
      Weaken(w1, s.Now(), p);
    }
    Trans(w0, w1, s.Now(), p);
  }

  method Stop(s: System, p: nat, used: set<nat>) returns (used': set<nat>)
    requires s.Valid() && Known(s.Now(), s.progtop, used) && p < s.ptab.Length && Resident(s.ptab[p])
    modifies s, s.pfree, s.ptab
    ensures s.Valid() && Known(s.Now(), s.progtop, used') && Step(old(s.Now()), End(p), s.progtop, s.Now())
    ensures s.owner.Keys == old(s.owner.Keys) && s.slots.Keys == old(s.slots.Keys)
  {
    hide Ok, MapsNeeded, Space;
    ghost var w0 := s.Now();
    s.Exit(p);
    used' := used - {p};
  }

  method Change(s: System, p: nat, size: Word, used: set<nat>)
    requires s.Valid() && Known(s.Now(), s.progtop, used) && p < s.ptab.Length && Resident(s.ptab[p])
    modifies s, s.pfree, s.ptab
    ensures s.Valid() && Known(s.Now(), s.progtop, used) && Step(old(s.Now()), Resize(p, size), s.progtop, s.Now())
    ensures s.owner.Keys == old(s.owner.Keys) && s.slots.Keys == old(s.slots.Keys)
  {
    hide Ok, MapsNeeded, Space;
    ghost var w0 := s.Now();
    assert Live(w0, p);
    var err := s.PagemapRealloc(p, size);
    ghost var w1 := s.Now();
    if !err {
      // the caller notes the new size
      SetTop(s, p, size);
      Weaken(w1, s.Now(), p);
      Trans(w0, w1, s.Now(), p);
    }
  }

  method BringBack(s: System, p: nat, sched: Sched, used: set<nat>) returns (ok: bool)
    requires s.Valid() && Known(s.Now(), s.progtop, used) && p < s.ptab.Length && p in used && !Resident(s.ptab[p])
    requires SchedOk(sched, s.ptab.Length)
    modifies s, s.pfree, s.swapmap, s.ptab
    ensures (ok <==> !Stuck(old(s.Now()), In(p, sched), s.progtop)) && (!ok ==> Lost(s, p))
    ensures ok ==> s.Valid() && Known(s.Now(), s.progtop, used) && Step(old(s.Now()), In(p, sched), s.progtop, s.Now())
    ensures ok ==> s.owner.Keys == old(s.owner.Keys) && s.slots.Keys == old(s.slots.Keys)
  {
    hide Ok, MapsNeeded, Space, Enough;
    ghost var w0 := s.Now();
    assert Live(w0, p);
    var err := s.Swapper(p, sched);
    ok := !err;
  }

  method Apply(s: System, op: Op, used: set<nat>) returns (ok: bool, used': set<nat>)
    requires s.Valid() && Known(s.Now(), s.progtop, used) && OpOk(op, s.ptab.Length)
    modifies s, s.pfree, s.swapmap, s.ptab
    ensures (ok <==> !Stuck(old(s.Now()), op, s.progtop)) && (!ok ==> Lost(s, op.p))
    ensures ok ==> s.Valid() && Known(s.Now(), s.progtop, used') && Step(old(s.Now()), op, s.progtop, s.Now())
    ensures ok ==> s.owner.Keys == old(s.owner.Keys) && s.slots.Keys == old(s.slots.Keys)
  {
    hide Ok, MapsNeeded, Space, RoomIn, Lost;
    ghost var w0 := s.Now();
    Reflexive(w0);
    Weaken(w0, w0, Touched(op));
    ok, used' := true, used;
    if op.p >= s.ptab.Length {
      return;
    }
    assert op.p in used <==> Live(w0, op.p);
    match op {
      case Begin(p, top, sched) =>
        if p !in used {
          used' := Start(s, p, top, sched, used);
        }
      case End(p) =>
        if Resident(s.ptab[p]) {
          used' := Stop(s, p, used);
        }
      case Resize(p, size) =>
        if Resident(s.ptab[p]) {
          Change(s, p, size, used);
        }
      case Out(p) =>
        if Resident(s.ptab[p]) {
          var err := s.SwapOut(p);
        }
      case In(p, sched) =>
        if p in used && !Resident(s.ptab[p]) {
          ok := BringBack(s, p, sched, used);
        }
    }
  }

  /** However processes come, go and are swapped: after every operation each page is in the free stack or in one
      map and each slot free or with one process, each operation does exactly its step, and no process notices an
      operation on another.  The run ends early exactly at a swap-in without room, and then the next swap-out would
      take the slot that the process is still in. */
  method Run(s: System, ops: seq<Op>, used0: set<nat>) returns (ghost worlds: seq<World>)
    requires s.Valid() && Known(s.Now(), s.progtop, used0) && forall op :: op in ops ==> OpOk(op, s.ptab.Length)
    modifies s, s.pfree, s.swapmap, s.ptab
    ensures 1 <= |worlds| <= |ops| + 1 && worlds[0] == old(s.Now())
    ensures forall i :: 0 <= i < |worlds| ==>
      Ok(worlds[i]) && worlds[i].owner.Keys == worlds[0].owner.Keys && worlds[i].slots.Keys == worlds[0].slots.Keys
    ensures forall i :: 0 <= i < |worlds| - 1 ==> Step(worlds[i], ops[i], s.progtop, worlds[i + 1]) && !Stuck(worlds[i], ops[i], s.progtop)
    ensures if |worlds| == |ops| + 1 then s.Valid() && s.Now() == worlds[|ops|]
            else Stuck(worlds[|worlds| - 1], ops[|worlds| - 1], s.progtop) && Lost(s, ops[|worlds| - 1].p)
  {
    hide Ok, MapsNeeded, Space, Known, Step, Stuck, Lost;
    worlds := [s.Now()];
    var used, n := used0, 0;
    while n < |ops|
      invariant 0 <= n <= |ops| && s.Valid() && Known(s.Now(), s.progtop, used)
      invariant |worlds| == n + 1 && worlds[0] == old(s.Now()) && worlds[n] == s.Now()
      invariant forall i :: 0 <= i <= n ==>
        Ok(worlds[i]) && worlds[i].owner.Keys == worlds[0].owner.Keys && worlds[i].slots.Keys == worlds[0].slots.Keys
      invariant forall i :: 0 <= i < n ==> Step(worlds[i], ops[i], s.progtop, worlds[i + 1]) && !Stuck(worlds[i], ops[i], s.progtop)
    {
      var ok;
      ok, used := Apply(s, ops[n], used);
      if !ok {
        return;
      }
      worlds := worlds + [s.Now()];
      n := n + 1;
    }
  }

  /** A process that nobody starts, ends or resizes finds its memory as it was, after any part of a run. */
  lemma {:induction false} LeftAlone(worlds: seq<World>, ops: seq<Op>, progtop: Word, p: nat, k: nat)
    requires k < |worlds| <= |ops| + 1
    requires forall i :: 0 <= i < |worlds| ==> Ok(worlds[i])
    requires forall i :: 0 <= i < k ==> Step(worlds[i], ops[i], progtop, worlds[i + 1]) && Touched(ops[i]) != p
    requires Live(worlds[0], p)
    ensures Live(worlds[k], p) && Space(worlds[k], p) == Space(worlds[0], p)
    decreases k
  {
    hide Ok, Space;
    if k > 0 {
      LeftAlone(worlds, ops, progtop, p, k - 1);
      assert Step(worlds[k - 1], ops[k - 1], progtop, worlds[k]);
      assert Same(worlds[k - 1], worlds[k], p);
    }
  }

  // ------------------------------------------------------------------ a slot that is free and in use

  lemma OnFree(w: World)
    requires Ok(w) && w.free != []
    ensures w.free[0] in w.owner && w.owner[w.free[0]] == Free(0)
  {
  }

  lemma InMap(w: World, p: nat)
    requires Ok(w) && p < |w.ptab| && Resident(w.ptab[p])
    ensures w.ptab[p].ptr[0] in w.owner && w.owner[w.ptab[p].ptr[0]] == Held(p)
  {
    assert MapOk(w.ptab, w.owner, p);
  }

  lemma OnSpare(w: World)
    requires Ok(w) && w.spare != []
    ensures w.spare[0] in w.slots && w.slots[w.spare[0]] == Spare(0)
  {
  }

  /** One page, and it is in a map. */
  lemma OnePage(w: World, p: nat, q: nat, page: Byte)
    requires Ok(w) && w.owner.Keys == {page} && p < |w.ptab| && q < |w.ptab| && p != q && Resident(w.ptab[p])
    ensures w.free == [] && !Resident(w.ptab[q])
  {
    InMap(w, p);
    if w.free != [] {
      OnFree(w);
    }
    if Resident(w.ptab[q]) {
      InMap(w, q);
    }
  }

  /** No process has a page that is free. */
  lemma NoPages(w: World)
    requires Ok(w) && forall x :: x in w.owner ==> x in w.free
    ensures forall p :: 0 <= p < |w.ptab| ==> !Resident(w.ptab[p])
  {
    forall p | 0 <= p < |w.ptab| ensures !Resident(w.ptab[p]) {
      if Resident(w.ptab[p]) {
        InMap(w, p);
      }
    }
  }

  /** One slot, and a process is in it. */
  lemma OneSlot(w: World, q: nat, slot: Byte)
    requires Ok(w) && w.slots.Keys == {slot} && q in w.swapped
    ensures w.spare == []
  {
    assert OutOk(w.ptab, w.slots, q);
    if w.spare != [] {
      OnSpare(w);
    }
  }

  /** A machine with one page, one slot and two processes that need a page each. */
  method Boot() returns (s: System)
    ensures s.Valid() && s.owner.Keys == {1} && s.slots.Keys == {1} && s.pfptr == 1 && s.swapptr == 1 && s.ptab.Length == 2
    ensures !Resident(s.ptab[0]) && !Resident(s.ptab[1]) && s.swapped == {} && s.ptab[0].top == s.ptab[1].top == 1000
    ensures MapsNeeded(s.ptab[0].top, s.progtop) == MapsNeeded(s.ptab[1].top, s.progtop) == 1
    ensures fresh(s) && fresh(s.pfree) && fresh(s.swapmap) && fresh(s.ptab)
  {
    hide Ok, Space, Unnoticed;
    s := new System(1, 1, 2, map[1 := seq(BANK, _ => 0)], seq(256 * 96, _ => 0), 0, 96, 60000);
    s.PagemapAdd(1);
    s.SwapmapInit(1);
    NoPages(s.Now());
    SetTop(s, 0, 1000);
    SetTop(s, 1, 1000);
  }

  /** Two ready processes, and nobody has waited. */
  function Two(): (sched: Sched)
    ensures SchedOk(sched, 2)
  {
    Sched(0, 0, [P_READY, P_READY], [0, 0])
  }

  /** One page, one slot and two processes: the first starts and is swapped out, the second starts, and nobody can
      make room for the first to come back. */
  method SlotLost() returns (s: System, ghost worlds: seq<World>)
    ensures |worlds| == 4 && (forall i :: 0 <= i < 4 ==> Ok(worlds[i])) && !Live(worlds[0], 0) && !Live(worlds[0], 1)
    ensures Step(worlds[0], Begin(0, 1000, Two()), s.progtop, worlds[1])
    ensures Step(worlds[1], Out(0), s.progtop, worlds[2])
    ensures Step(worlds[2], Begin(1, 1000, Two()), s.progtop, worlds[3])
    ensures Stuck(worlds[3], In(0, Two()), s.progtop) && Lost(s, 0)
  {
    hide Ok, Space, Step, Stuck, Lost, Unnoticed, MapsNeeded;
    s := Boot();
    worlds := [s.Now()];
    FirstIn(s);
    worlds := worlds + [s.Now()];
    FirstOut(s);
    worlds := worlds + [s.Now()];
    ghost var w := BackAgain(s);
    worlds := worlds + [w];
  }

  /** The first process takes the page. */
  method FirstIn(s: System)
    requires s.Valid() && s.owner.Keys == {1} && s.slots.Keys == {1} && s.pfptr == 1 && s.swapptr == 1 && s.ptab.Length == 2
    requires !Resident(s.ptab[0]) && !Resident(s.ptab[1]) && s.swapped == {} && s.ptab[0].top == s.ptab[1].top == 1000
    requires MapsNeeded(s.ptab[0].top, s.progtop) == MapsNeeded(s.ptab[1].top, s.progtop) == 1
    modifies s, s.pfree, s.ptab
    ensures s.Valid() && s.owner.Keys == {1} && s.slots.Keys == {1} && s.pfptr == 0 && s.swapptr == 1 && s.swapped == {}
    ensures Resident(s.ptab[0]) && !Resident(s.ptab[1]) && s.ptab[0].top == s.ptab[1].top == 1000
    ensures 0 in s.need && s.need[0] == 1 && Step(old(s.Now()), Begin(0, 1000, Two()), s.progtop, s.Now())
  {
    hide Ok, Space, Enough, Flags, Victim, Unnoticed, MapsNeeded;
    EnoughAtOnce(Two(), Flags(s.ptab[..]), s.need, 0, s.pfptr, s.swapptr, 1);
    var err := s.PagemapAlloc(0, Two());
    OnePage(s.Now(), 0, 1, 1);
  }

  /** The first process goes to the slot. */
  method FirstOut(s: System)
    requires s.Valid() && s.owner.Keys == {1} && s.slots.Keys == {1} && s.pfptr == 0 && s.swapptr == 1 && s.ptab.Length == 2
    requires Resident(s.ptab[0]) && !Resident(s.ptab[1]) && s.ptab[0].top == s.ptab[1].top == 1000 && s.swapped == {}
    requires 0 in s.need && s.need[0] == 1
    modifies s, s.pfree, s.ptab
    ensures s.Valid() && s.owner.Keys == {1} && s.slots.Keys == {1} && s.pfptr == 1 && s.swapped == {0}
    ensures !Resident(s.ptab[0]) && !Resident(s.ptab[1]) && s.ptab[0].top == s.ptab[1].top == 1000
    ensures 0 in s.need && s.need[0] == 1 && Step(old(s.Now()), Out(0), s.progtop, s.Now())
  {
    hide Ok, Space, Enough, Flags, Victim, Unnoticed, MapsNeeded;
    var err := s.SwapOut(0);
  }

  /** The first process is in the slot, and the second takes the page. */
  method BackAgain(s: System) returns (ghost w: World)
    requires s.Valid() && s.owner.Keys == {1} && s.slots.Keys == {1} && s.pfptr == 1 && s.ptab.Length == 2
    requires !Resident(s.ptab[0]) && !Resident(s.ptab[1]) && s.swapped == {0} && 0 in s.need && s.ptab[1].top == 1000
    requires s.need[0] == MapsNeeded(s.ptab[0].top, s.progtop) == MapsNeeded(s.ptab[1].top, s.progtop) == 1
    modifies s, s.pfree, s.swapmap, s.ptab
    ensures Ok(w) && Step(old(s.Now()), Begin(1, 1000, Two()), s.progtop, w)
    ensures Stuck(w, In(0, Two()), s.progtop) && Lost(s, 0)
  {
    hide Ok, Space, Enough, Flags, Victim, Unnoticed, MapsNeeded;
    EnoughAtOnce(Two(), Flags(s.ptab[..]), s.need, 1, s.pfptr, s.swapptr, 1);
    var err := s.PagemapAlloc(1, Two());
    w := s.Now();
    OnePage(w, 1, 0, 1);
    OneSlot(w, 0, 1);
    EnoughAtOnce(Two(), Flags(s.ptab[..]), s.need, 0, 0, 0, 1);
    err := s.Swapper(0, Two());
  }

  /** What such a slot does: the next process swapped out is written over the one that is in it. */
  lemma Overwritten(w: World, p: nat, q: nat, k: nat)
    requires p < |w.ptab| && q < |w.ptab| && Mapped(w.st, w.ptab[p].ptr) && |w.st.disk| == 256 * w.st.ss && k <= 4
    requires w.spare != [] && w.spare[|w.spare| - 1] == Page2(w.ptab[q])
    ensures
      var w' := WroteOut(w, p, w.spare[|w.spare| - 1], k, InMemory(w.st, w.ptab[p].ptr));
      OnDisk(w'.st.disk, w'.st.ss, Page2(w.ptab[q])) == InMemory(w.st, w.ptab[p].ptr)
  {
    hide InMemory;
    var slot: Byte := w.spare[|w.spare| - 1];
    DiskSlot(w.st, slot, InMemory(w.st, w.ptab[p].ptr), slot);
  }
}
