/** The one-pass INTCODE assembler (Applications/BCPL/iclink.c, and the same in icint.c).  A reference to a label that
    is not set yet is threaded through the very cell it will be patched into; setting the label walks the thread. */
module Linker {
  import opened Intcode
  import opened Accesses
  import Paging

  /** Where a cell waits: in the thread of label n, at position j counted from the oldest reference. */
  datatype Place = Place(n: nat, j: nat)

  /** The threads, for reasoning only: the cells of every label's thread, oldest first, and back. */
  datatype Threads = Threads(cells: seq<seq<nat>>, place: map<nat, Place>)

  /** Labv[n] is 0, the newest cell of the thread, or minus the label's address. */
  predicate ThreadOk(mem: seq<Word>, labv: int, cells: seq<nat>)
    requires |mem| == VSIZE
  {
    if labv < 0 then cells == []
    else
      && labv == (if cells == [] then 0 else cells[|cells| - 1])
      && forall j :: 0 <= j < |cells| ==> LinkOk(mem, cells, j)
  }

  predicate LinkOk(mem: seq<Word>, cells: seq<nat>, j: nat)
    requires |mem| == VSIZE && j < |cells|
  {
    1 <= cells[j] < VSIZE && mem[cells[j]] == (if j == 0 then 0 else cells[j - 1])
  }

  /** mem is two, the memory of the two-pass assembler, but for the cells that wait for a label. */
  ghost predicate Tracks(mem: seq<Word>, two: seq<Word>, labv: seq<int>, t: Threads, labels: map<nat, nat>) {
    && |mem| == VSIZE && |two| == VSIZE && |labv| == LABELS && |t.cells| == LABELS
    && (forall n :: 0 <= n < LABELS ==> ThreadOk(mem, labv[n], t.cells[n]))
    && (forall n :: 0 <= n < LABELS && labv[n] < 0 ==> n in labels && labv[n] + labels[n] == 0)
    && (forall n, j :: 0 <= n < LABELS && 0 <= j < |t.cells[n]| ==> t.cells[n][j] in t.place && t.place[t.cells[n][j]] == Place(n, j))
    && (forall a :: a in t.place ==> a < VSIZE && PlaceOk(two, t, a, labels))
    && (forall a :: 0 <= a < VSIZE && a !in t.place ==> mem[a] == two[a])
  }

  ghost predicate PlaceOk(two: seq<Word>, t: Threads, a: nat, labels: map<nat, nat>)
    requires |two| == VSIZE && |t.cells| == LABELS && a in t.place && a < VSIZE
  {
    var p := t.place[a];
    p.n < LABELS && p.j < |t.cells[p.n]| && t.cells[p.n][p.j] == a && p.n in labels && two[a] == labels[p.n]
  }

  function NoThreads(): Threads {
    Threads(seq(LABELS, _ => []), map[])
  }

  lemma TracksInit(mem: seq<Word>, labels: map<nat, nat>)
    requires |mem| == VSIZE
    ensures Tracks(mem, mem, seq(LABELS, _ => 0), NoThreads(), labels)
  {
  }

  /** Both assemblers write the same word to a cell that does not wait. */
  lemma TracksWrite(mem: seq<Word>, two: seq<Word>, labv: seq<int>, t: Threads, labels: map<nat, nat>, a: nat, w: Word)
    requires Tracks(mem, two, labv, t, labels) && a < VSIZE && a !in t.place
    ensures Tracks(mem[a := w], two[a := w], labv, t, labels)
  {
    var mem' := mem[a := w];
    forall n | 0 <= n < LABELS ensures ThreadOk(mem', labv[n], t.cells[n]) {
      assert ThreadOk(mem, labv[n], t.cells[n]);
      if labv[n] >= 0 {
        forall j | 0 <= j < |t.cells[n]| ensures LinkOk(mem', t.cells[n], j) {
          assert LinkOk(mem, t.cells[n], j);
          assert t.cells[n][j] in t.place;
        }
      }
    }
    forall b | b in t.place ensures PlaceOk(two[a := w], t, b, labels) {
      assert PlaceOk(two, t, b, labels);
    }
  }

  /** labref to a label not yet set: the zero in cell a becomes the old head of the thread, and a the new one. */
  lemma TracksRef(mem: seq<Word>, two: seq<Word>, labv: seq<int>, t: Threads, labels: map<nat, nat>, n: nat, a: nat)
    returns (t': Threads)
    requires Tracks(mem, two, labv, t, labels) && n < LABELS && n in labels && labels[n] < 65536
    requires labv[n] >= 0 && 1 <= a < VSIZE && a !in t.place
    ensures labv[n] < 65536
    ensures Tracks(mem[a := labv[n]], two[a := labels[n]], labv[n := a], t', labels)
    ensures t'.place.Keys == t.place.Keys + {a}
  {
    var cells := t.cells[n];
    var mem', labv' := mem[a := labv[n]], labv[n := a];
    assert ThreadOk(mem, labv[n], cells);
    if cells != [] {
      assert LinkOk(mem, cells, |cells| - 1);
    }
    t' := Threads(t.cells[n := cells + [a]], t.place[a := Place(n, |cells|)]);
    forall m | 0 <= m < LABELS ensures ThreadOk(mem', labv'[m], t'.cells[m]) {
      ThreadRef(mem, two, labv, t, labels, n, a, m);
    }
    RefPlaces(two, t, t', labels, n, a);
  }

  lemma ThreadRef(mem: seq<Word>, two: seq<Word>, labv: seq<int>, t: Threads, labels: map<nat, nat>, n: nat, a: nat, m: nat)
    requires Tracks(mem, two, labv, t, labels) && n < LABELS && m < LABELS && 0 <= labv[n] < 65536
    requires 1 <= a < VSIZE && a !in t.place && (t.cells[n] == [] ==> labv[n] == 0)
    ensures ThreadOk(mem[a := labv[n]], labv[n := a][m], t.cells[n := t.cells[n] + [a]][m])
  {
    var mem', cells' := mem[a := labv[n]], t.cells[n := t.cells[n] + [a]][m];
    assert ThreadOk(mem, labv[m], t.cells[m]);
    if labv[n := a][m] >= 0 {
      forall j | 0 <= j < |cells'| ensures LinkOk(mem', cells', j) {
        if j < |t.cells[m]| {
          assert LinkOk(mem, t.cells[m], j);
          assert t.cells[m][j] in t.place;
        }
      }
    }
  }

  lemma RefPlaces(two: seq<Word>, t: Threads, t': Threads, labels: map<nat, nat>, n: nat, a: nat)
    requires |two| == VSIZE && |t.cells| == LABELS && n < LABELS && n in labels && labels[n] < 65536 && a < VSIZE && a !in t.place
    requires t' == Threads(t.cells[n := t.cells[n] + [a]], t.place[a := Place(n, |t.cells[n]|)])
    requires forall b :: b in t.place ==> b < VSIZE && PlaceOk(two, t, b, labels)
    ensures forall b :: b in t'.place ==> b < VSIZE && PlaceOk(two[a := labels[n]], t', b, labels)
  {
    forall b | b in t'.place ensures b < VSIZE && PlaceOk(two[a := labels[n]], t', b, labels) {
      if b != a {
        assert PlaceOk(two, t, b, labels);
      }
    }
  }

  /** The threads without that of label n. */
  function Cleared(t: Threads, n: nat): Threads
    requires n < |t.cells|
  {
    Threads(t.cells[n := []], map a | a in t.place && t.place[a].n != n :: t.place[a])
  }

  /** setlab: every cell of the thread gets the address, and the label has no thread any more. */
  lemma TracksSet(mem: seq<Word>, mem': seq<Word>, two: seq<Word>, labv: seq<int>, t: Threads, labels: map<nat, nat>, n: nat, p: nat)
    returns (t': Threads)
    requires Tracks(mem, two, labv, t, labels) && n < LABELS && n in labels && labels[n] == p && p >= 1 && labv[n] >= 0
    requires |mem'| == VSIZE
    requires forall a :: 0 <= a < VSIZE ==> mem'[a] == if a in t.cells[n] then p else mem[a]
    ensures Tracks(mem', two, labv[n := 0 - p], t', labels)
    ensures t'.place.Keys <= t.place.Keys
  {
    t' := Cleared(t, n);
    forall m | 0 <= m < LABELS && m != n ensures ThreadOk(mem', labv[m], t.cells[m]) {
      ThreadKept(mem, mem', two, labv, t, labels, n, m);
    }
    forall a | a in t'.place ensures PlaceOk(two, t', a, labels) {
      assert PlaceOk(two, t, a, labels);
    }
    forall a | 0 <= a < VSIZE && a !in t'.place ensures mem'[a] == two[a] {
      CellSet(mem, mem', two, labv, t, labels, n, p, a);
    }
  }

  lemma ThreadKept(mem: seq<Word>, mem': seq<Word>, two: seq<Word>, labv: seq<int>, t: Threads, labels: map<nat, nat>,
                   n: nat, m: nat)
    requires Tracks(mem, two, labv, t, labels) && n < LABELS && m < LABELS && m != n && |mem'| == VSIZE
    requires forall a :: 0 <= a < VSIZE && a !in t.cells[n] ==> mem'[a] == mem[a]
    ensures ThreadOk(mem', labv[m], t.cells[m])
  {
    assert ThreadOk(mem, labv[m], t.cells[m]);
    if labv[m] >= 0 {
      forall j | 0 <= j < |t.cells[m]| ensures LinkOk(mem', t.cells[m], j) {
        assert LinkOk(mem, t.cells[m], j);
        assert t.place[t.cells[m][j]] == Place(m, j);
      }
    }
  }

  /** A cell that waits for no label any more holds what the two-pass assembler put there. */
  lemma CellSet(mem: seq<Word>, mem': seq<Word>, two: seq<Word>, labv: seq<int>, t: Threads, labels: map<nat, nat>,
                n: nat, p: nat, a: nat)
    requires Tracks(mem, two, labv, t, labels) && n < LABELS && n in labels && labels[n] == p && |mem'| == VSIZE
    requires a < VSIZE && mem'[a] == (if a in t.cells[n] then p else mem[a]) && a !in Cleared(t, n).place
    ensures mem'[a] == two[a]
  {
    assert a in t.place ==> PlaceOk(two, t, a, labels);
    if a in t.cells[n] {
      var i :| 0 <= i < |t.cells[n]| && t.cells[n][i] == a;
      assert t.place[t.cells[n][i]] == Place(n, i);
    }
  }

  /** The cells of a thread are different cells, none of them cell 0, each holding the one before it. */
  lemma ThreadCells(mem: seq<Word>, two: seq<Word>, labv: seq<int>, t: Threads, labels: map<nat, nat>, n: nat)
    requires Tracks(mem, two, labv, t, labels) && n < LABELS && labv[n] >= 0
    ensures forall j, k :: 0 <= j < k < |t.cells[n]| ==> t.cells[n][j] != t.cells[n][k]
    ensures forall j :: 0 <= j < |t.cells[n]| ==> LinkOk(mem, t.cells[n], j)
    ensures labv[n] == if t.cells[n] == [] then 0 else t.cells[n][|t.cells[n]| - 1]
  {
    assert ThreadOk(mem, labv[n], t.cells[n]);
    forall j, k | 0 <= j < k < |t.cells[n]| ensures t.cells[n][j] != t.cells[n][k] {
      assert t.place[t.cells[n][j]] == Place(n, j);
      assert t.place[t.cells[n][k]] == Place(n, k);
    }
  }

  /** When every label has been set nothing waits. */
  lemma TracksDone(mem: seq<Word>, two: seq<Word>, labv: seq<int>, t: Threads, labels: map<nat, nat>)
    requires Tracks(mem, two, labv, t, labels) && forall n :: n in labels && n < LABELS ==> labv[n] < 0
    ensures mem == two
  {
    forall n | 0 <= n < LABELS && n in labels ensures t.cells[n] == [] {
      assert ThreadOk(mem, labv[n], t.cells[n]);
    }
  }

  class Linker {
    const M: array<Word>
    const labv: array<int>
    var p: nat
    var cp: nat
    ghost var t: Threads
    /** The accesses to M so far, and what they read. */
    ghost var log: Log
    ghost var got: seq<Word>

    /** The one-pass state stands for the two-pass state s, with some cells still waiting. */
    ghost predicate Follows(s: State, labels: map<nat, nat>)
      reads this, M, labv
    {
      && labv.Length == LABELS && M.Length == VSIZE
      && p == s.p && cp == s.cp && StateOk(s)
      && Tracks(M[..], s.mem, labv[..], t, labels)
    }

    /** Cells wait only outside the code to come: they are earlier code or global cells already used. */
    ghost predicate Apart(used: set<nat>, lo: nat, hi: nat)
      reads this
    {
      && (forall a :: a in t.place ==> a in used || lo <= a < p)
      && (forall a :: a in used ==> !(lo <= a < hi))
      && (cp != 0 ==> p - 1 !in t.place)
    }

    /** The accesses led to M, and every cell that waits for a label or for its second character was written. */
    ghost predicate Traced()
      reads this, M
    {
      && M.Length == VSIZE && Logs(log, got, M[..])
      && t.place.Keys <= Written(log) && (cp != 0 ==> p >= 1 && p - 1 in Written(log))
    }

    /** Sums went to pages just written to, and the next one will. */
    ghost predicate Calm()
      reads this
    {
      Prompt(log) && (cp != 0 ==> p >= 1 && JustStored(log, (p - 1) / Paging.BLKSIZE))
    }

    /** wrM, which is M[a] = w here. */
    method Wr(a: nat, w: Word)
      requires M.Length == VSIZE && a < VSIZE && Logs(log, got, M[..])
      modifies M, this`log, this`got
      ensures M[..] == old(M[..])[a := w] && Logs(log, got, M[..]) && Written(log) == Written(old(log)) + {a}
      ensures old(Prompt(log)) ==> Prompt(log)
      ensures JustStored(log, a / Paging.BLKSIZE)
    {
      hide Logs, Written, Prompt, JustStored;
      ghost var mem, op := M[..], Paging.Write(a, w);
      WrittenMore(log, op);
      PromptMore(log, op);
      LogsMore(log, got, mem, op, 0, mem[a := w]);
      M[a] := w;
      log, got := log + [op], got + [0];
      assert M[..] == mem[a := w];
    }

    /** rdM */
    method Rd(a: nat) returns (w: Word)
      requires M.Length == VSIZE && a < VSIZE && Logs(log, got, M[..]) && a in Written(log)
      modifies this`log, this`got
      ensures w == M[a] && Logs(log, got, M[..]) && Written(log) == Written(old(log)) && (old(Prompt(log)) ==> Prompt(log))
    {
      hide Logs, Written, Prompt, JustStored;
      ghost var op := Paging.Read(a);
      WrittenMore(log, op);
      PromptMore(log, op);
      w := M[a];
      LogsMore(log, got, M[..], op, w, M[..]);
      log, got := log + [op], got + [w];
    }

    /** add2M */
    method AddTo(a: nat, c: Word)
      requires M.Length == VSIZE && a < VSIZE && Logs(log, got, M[..]) && a in Written(log)
      modifies M, this`log, this`got
      ensures M[..] == old(M[..])[a := Paging.Sum(old(M[a]), c)] && Logs(log, got, M[..]) && Written(log) == Written(old(log))
      ensures old(Prompt(log)) && old(JustStored(log, a / Paging.BLKSIZE)) ==> Prompt(log)
      ensures old(JustStored(log, a / Paging.BLKSIZE)) ==> JustStored(log, a / Paging.BLKSIZE)
    {
      hide Logs, Written, Prompt, JustStored;
      ghost var mem, op := M[..], Paging.Add(a, c);
      WrittenMore(log, op);
      PromptMore(log, op);
      LogsMore(log, got, mem, op, 0, mem[a := Paging.Sum(mem[a], c)]);
      M[a] := Paging.Sum(M[a], c);
      log, got := log + [op], got + [0];
      assert M[..] == mem[a := Paging.Sum(mem[a], c)];
    }

    method Stw(w: Word)
      requires M.Length == VSIZE && p < VSIZE && Logs(log, got, M[..])
      modifies this`p, this`cp, this`log, this`got, M
      ensures M[..] == old(M[..])[old(p) := w] && p == old(p) + 1 && cp == 0
      ensures Logs(log, got, M[..]) && Written(log) == Written(old(log)) + {old(p)} && (old(Prompt(log)) ==> Prompt(log))
      ensures JustStored(log, (p - 1) / Paging.BLKSIZE)
    {
      hide Logs, Written, Prompt, JustStored;
      Wr(p, w);
      p := p + 1;
      cp := 0;
    }

    method Stc(c: Word)
      requires M.Length == VSIZE && (cp == 0 || (cp == 8 && 1 <= p <= VSIZE)) && (cp == 0 ==> p < VSIZE)
      requires Logs(log, got, M[..]) && (cp != 0 ==> p - 1 in Written(log))
      modifies this`p, this`cp, this`log, this`got, M
      ensures Logs(log, got, M[..]) && Written(old(log)) <= Written(log) && p >= 1 && p - 1 in Written(log) && (old(Calm()) ==> Calm())
      ensures p == old(p) + Size(Character(c), old(cp)) && cp == NextCp(Character(c), old(cp))
      ensures
        var was: int := old(if 1 <= p <= VSIZE then M[p - 1] else 0);
        M[..] == if old(cp) == 0 then old(M[..])[old(p) := c * 256 % 65536] else old(M[..])[old(p) - 1 := (was + c) % 65536]
    {
      hide Logs, Written, Prompt, JustStored;
      if cp == 0 {
        Stw(0);
        cp := 16;
      }
      cp := cp - 8;
      // c << Cp is cut to 16 bits when it is added
      AddTo(p - 1, c * (if cp == 8 then 256 else 1) % 65536);
    }

    /** The walk of setlab along a thread ends, and leaves p in every cell of it. */
    method Walk(head: int, ghost cells: seq<nat>)
      requires M.Length == VSIZE && p < 65536 && Logs(log, got, M[..]) && forall a :: a in cells ==> a in Written(log)
      requires forall j, k :: 0 <= j < k < |cells| ==> cells[j] != cells[k]
      requires forall j :: 0 <= j < |cells| ==> LinkOk(M[..], cells, j)
      requires head == if cells == [] then 0 else cells[|cells| - 1]
      modifies M, this`log, this`got
      ensures forall a :: 0 <= a < VSIZE ==> M[a] == if a in cells then p else old(M[a])
      ensures Logs(log, got, M[..]) && Written(old(log)) <= Written(log) && (old(Prompt(log)) ==> Prompt(log))
    {
      hide Logs, Written, Prompt, JustStored;
      var k := head;
      ghost var i := |cells|;
      assert cells != [] ==> LinkOk(M[..], cells, |cells| - 1);
      while k > 0
        invariant i > 0 ==> LinkOk(old(M[..]), cells, i - 1)
        invariant 0 <= i <= |cells| && k == (if i == 0 then 0 else cells[i - 1])
        invariant forall a :: 0 <= a < VSIZE ==> M[a] == if a in cells[i..] then p else old(M[a])
        invariant Logs(log, got, M[..]) && Written(old(log)) <= Written(log) && (old(Prompt(log)) ==> Prompt(log))
        decreases i
      {
        i := i - 1;
        assert LinkOk(old(M[..]), cells, i);
        assert cells[i..] == [cells[i]] + cells[i + 1..];
        var kp := k;
        assert cells[i] in cells;
        var nv := Rd(kp);
        ghost var mem := M[..];
        Wr(kp, p);
        assert forall a :: 0 <= a < VSIZE ==> M[..][a] == if a == kp then p else mem[a];
        k := nv;
        assert i > 0 ==> LinkOk(old(M[..]), cells, i - 1);
      }
      assert cells[0..] == cells;
    }

    /** setlab */
    method SetLab(n: nat, ghost s: State, ghost labels: map<nat, nat>)
      requires Follows(s, labels) && Traced() && n < LABELS && labv[n] >= 0 && n in labels && labels[n] == p
      modifies this`t, this`log, this`got, M, labv
      ensures Follows(s, labels) && Traced() && labv[..] == old(labv[..])[n := 0 - p]
      ensures t.place.Keys <= old(t.place.Keys) && (old(Prompt(log)) ==> Prompt(log))
    {
      hide Tracks, Logs, Written, Prompt, JustStored;
      ghost var mem, lab := M[..], labv[..];
      ThreadWaits(mem, s.mem, lab, t, labels, n);
      ThreadCells(mem, s.mem, lab, t, labels, n);
      SameThreads(mem, s.mem, lab, t, labels);
      assert M[..] == mem;
      Walk(labv[n], t.cells[n]);
      t := TracksSet(mem, M[..], s.mem, lab, t, labels, n, p);
      labv[n] := 0 - p;
      assert labv[..] == lab[n := 0 - p];
    }

    /** labref: the cell, which holds zero, gets the label's address or joins its thread. */
    method LabRef(n: nat, a: nat, ghost s: State, ghost labels: map<nat, nat>)
      requires Follows(s, labels) && n < LABELS && n in labels && 1 <= labels[n] <= VSIZE
      requires 1 <= a < VSIZE && a !in t.place && M[a] == 0 && Traced() && a in Written(log)
      modifies this`t, this`log, this`got, M, labv
      ensures Follows(s.(mem := s.mem[a := labels[n]]), labels) && Traced()
      ensures old(Prompt(log)) && old(JustStored(log, a / Paging.BLKSIZE)) ==> Prompt(log)
      ensures labv[..] == if old(labv[n]) < 0 then old(labv[..]) else old(labv[..])[n := a]
      ensures t.place.Keys <= old(t.place.Keys) + {a}
    {
      hide Tracks, Logs, Written, Prompt, JustStored;
      ghost var mem, lab := M[..], labv[..];
      SameThreads(mem, s.mem, lab, t, labels);
      var k := labv[n];
      if k < 0 {
        k := 0 - k;
        TracksWrite(mem, s.mem, lab, t, labels, a, k);
      } else {
        t := TracksRef(mem, s.mem, lab, t, labels, n, a);
        labv[n] := a;
      }
      AddTo(a, k);
      assert mem[a] == 0 && Paging.Sum(0, k) == k;
      assert labv[..] == if lab[n] < 0 then lab else lab[n := a];
    }

    /** stw of a known word. */
    method Emit(w: Word, ghost s: State, ghost labels: map<nat, nat>, ghost used: set<nat>, ghost lo: nat, ghost hi: nat)
      requires Follows(s, labels) && Apart(used, lo, hi) && lo <= p < hi <= VSIZE && Traced()
      modifies this`p, this`cp, this`log, this`got, M
      ensures Follows(State(s.mem[s.p := w], s.p + 1, 0), labels) && Apart(used, lo, hi) && Traced()
      ensures p == old(p) + 1 && cp == 0 && p - 1 in Written(log) && JustStored(log, (p - 1) / Paging.BLKSIZE)
      ensures old(Prompt(log)) ==> Prompt(log)
    {
      hide Tracks, Logs, Written, Prompt, JustStored;
      SameThreads(M[..], s.mem, labv[..], t, labels);
      TracksWrite(M[..], s.mem, labv[..], t, labels, p, w);
      Stw(w);
    }

    /** stw(0) and labref to the word just made. */
    method EmitRef(n: nat, ghost s: State, ghost labels: map<nat, nat>, ghost used: set<nat>, ghost lo: nat, ghost hi: nat)
      requires Follows(s, labels) && Apart(used, lo, hi) && 1 <= lo <= p < hi <= VSIZE && Traced()
      requires n < LABELS && n in labels && 1 <= labels[n] <= VSIZE
      modifies this`p, this`cp, this`t, this`log, this`got, M, labv
      ensures Follows(State(s.mem[s.p := labels[n]], s.p + 1, 0), labels) && Apart(used, lo, hi) && Traced() && cp == 0
      ensures forall m :: 0 <= m < LABELS ==> (labv[m] < 0 <==> old(labv[m]) < 0)
      ensures old(Prompt(log)) ==> Prompt(log)
    {
      hide Tracks, Logs, Written, Prompt, JustStored;
      ghost var p0, mem := s.p, s.mem;
      Emit(0, s, labels, used, lo, hi);
      ghost var zeroed: seq<Word> := mem[p0 := 0];
      ghost var s1 := State(zeroed, p0 + 1, 0);
      SameThreads(M[..], s1.mem, labv[..], t, labels);
      NotWaiting(M[..], s1.mem, labv[..], t, labels, p0);
      ghost var lab := labv[..];
      LabRef(n, p - 1, s1, labels);
      assert forall m :: 0 <= m < LABELS ==> labv[..][m] == labv[m] && lab[m] == old(labv[m]);
      assert zeroed[p0 := labels[n]] == mem[p0 := labels[n]];
    }

    method EmitCharacter(c: Word, ghost s: State, ghost labels: map<nat, nat>, ghost used: set<nat>, ghost lo: nat, ghost hi: nat)
      requires Follows(s, labels) && Apart(used, lo, hi) && 1 <= lo <= p <= hi <= VSIZE && Traced()
      requires if cp == 0 then p < hi else lo < p
      modifies this`p, this`cp, this`log, this`got, M
      ensures LabelsOk(map[]) && Follows(Put(s, Character(c), map[]), labels) && Apart(used, lo, hi)
      ensures Traced() && (old(Calm()) ==> Calm())
    {
      hide Tracks, Logs, Written, Prompt, JustStored;
      SameThreads(M[..], s.mem, labv[..], t, labels);
      if cp == 0 {
        TracksWrite(M[..], s.mem, labv[..], t, labels, p, c * 256 % 65536);
      } else {
        NotWaiting(M[..], s.mem, labv[..], t, labels, p - 1);
        var was: int := M[p - 1];
        TracksWrite(M[..], s.mem, labv[..], t, labels, p - 1, (was + c) % 65536);
      }
      Stc(c);
    }

    /** One turn of the switch in assemble. */
    method Assemble1(item: Item, ghost s: State, ghost labels: map<nat, nat>, ghost used: set<nat>, ghost lo: nat, ghost hi: nat)
      requires Follows(s, labels) && Apart(used, lo, hi) && ItemOk(item, labels) && LabelsOk(labels)
      requires 1 <= lo <= p && p + Size(item, cp) <= hi <= VSIZE && (cp != 0 ==> lo < p)
      requires item.Global? ==> GlobalCell(item.g) !in used && !(lo <= GlobalCell(item.g) < hi)
      requires item.Mark? ==> labv[item.n] >= 0 && item.n in labels && labels[item.n] == p
      requires Traced()
      modifies this`p, this`cp, this`t, this`log, this`got, M, labv
      ensures Follows(Put(s, item, labels), labels) && Apart(Used(item, used), lo, hi)
      ensures Traced() && (old(Calm()) && !(item.Global? && old(cp) != 0) ==> Calm())
      ensures forall n :: 0 <= n < LABELS ==> (labv[n] < 0 <==> old(labv[n]) < 0 || item == Mark(n))
    {
      hide Tracks, Logs, Written, Prompt, JustStored;
      SameThreads(M[..], s.mem, labv[..], t, labels);
      match item {
        case Mark(n) =>
          ghost var lab := labv[..];
          SetLab(n, s, labels);
          assert forall m :: 0 <= m < LABELS ==> labv[..][m] == labv[m] && lab[m] == old(labv[m]);
          cp := 0;
        case Character(c) =>
          EmitCharacter(c, s, labels, used, lo, hi);
        case Data(w) =>
          Emit(w, s, labels, used, lo, hi);
        case DataRef(n) =>
          EmitRef(n, s, labels, used, lo, hi);
        case Global(g, n) =>
          FillGlobal(g, n, s, labels, used, lo, hi);
        case Code(f, ind, stack, global, operand) =>
          EmitCode(item, s, labels, used, lo, hi);
      }
    }

    /** The G item: M[A] = 0 and a reference from there. */
    method FillGlobal(g: Word, n: nat, ghost s: State, ghost labels: map<nat, nat>, ghost used: set<nat>, ghost lo: nat, ghost hi: nat)
      requires Follows(s, labels) && Apart(used, lo, hi) && n < LABELS && n in labels && 1 <= labels[n] <= VSIZE
      requires lo <= p <= hi && (cp != 0 ==> lo < p)
      requires 1 <= GlobalCell(g) < VSIZE && GlobalCell(g) !in used && !(lo <= GlobalCell(g) < hi) && Traced()
      modifies this`t, this`log, this`got, M, labv
      ensures Follows(s.(mem := s.mem[GlobalCell(g) := labels[n]]), labels) && Apart(used + {GlobalCell(g)}, lo, hi)
      ensures forall m :: 0 <= m < LABELS ==> (labv[m] < 0 <==> old(labv[m]) < 0)
      ensures Traced() && (old(Prompt(log)) ==> Prompt(log))
    {
      hide Tracks, Logs, Written, Prompt, JustStored;
      ghost var mem, lab := s.mem, labv[..];
      var a := GlobalCell(g);
      SameThreads(M[..], mem, lab, t, labels);
      TracksWrite(M[..], mem, lab, t, labels, a, 0);
      Wr(a, 0);
      ghost var zeroed: seq<Word> := mem[a := 0];
      LabRef(n, a, s.(mem := zeroed), labels);
      assert zeroed[a := labels[n]] == mem[a := labels[n]];
      assert forall m :: 0 <= m < LABELS ==> labv[..][m] == labv[m] && lab[m] == old(labv[m]);
    }

    /** The eight functions: one word, or two when the operand does not fit or is a label. */
    method EmitCode(item: Item, ghost s: State, ghost labels: map<nat, nat>, ghost used: set<nat>, ghost lo: nat, ghost hi: nat)
      requires item.Code? && Follows(s, labels) && Apart(used, lo, hi) && ItemOk(item, labels) && LabelsOk(labels)
      requires 1 <= lo <= p && p + Size(item, cp) <= hi <= VSIZE && Traced()
      modifies this`p, this`cp, this`t, this`log, this`got, M, labv
      ensures Follows(Put(s, item, labels), labels) && Apart(used, lo, hi) && Traced() && cp == 0
      ensures forall n :: 0 <= n < LABELS ==> (labv[n] < 0 <==> old(labv[n]) < 0)
      ensures old(Prompt(log)) ==> Prompt(log)
    {
      hide Tracks, Opcode, Logs, Written, Prompt, JustStored;
      var w: int := Opcode(item.f, item.ind, item.stack, item.global);
      OpcodeRange(item.f, item.ind, item.stack, item.global);
      ghost var s1 := State(s.mem[s.p := w + DBIT], s.p + 1, 0);
      match item.operand {
        case Literal(a) =>
          if a < ABITS {
            Emit(w + a, s, labels, used, lo, hi);
          } else {
            Emit(w + DBIT, s, labels, used, lo, hi);
            Emit(a, s1, labels, used, lo, hi);
          }
        case Ref(n) =>
          Emit(w + DBIT, s, labels, used, lo, hi);
          EmitRef(n, s1, labels, used, lo, hi);
      }
    }

    constructor ()
      ensures M.Length == VSIZE && labv.Length == LABELS && fresh(M) && fresh(labv)
      ensures p == MPROG && cp == 0 && M[..] == seq(VSIZE, _ => 0) && log == [] && Logs(log, got, M[..])
    {
      M := new Word[VSIZE](_ => 0);
      labv := new int[LABELS](_ => 0);
      p, cp, t, log, got := MPROG, 0, NoThreads(), [], [];
    }

    method Clear()
      requires labv.Length == LABELS
      modifies this`cp, this`t, labv
      ensures cp == 0 && t == NoThreads() && labv[..] == seq(LABELS, _ => 0)
    {
      var i := 0;
      while i <= 500
        invariant 0 <= i <= 501 && forall j :: 0 <= j < i ==> labv[j] == 0
      {
        labv[i] := 0;
        i := i + 1;
      }
      cp, t := 0, NoThreads();
    }

    /** assemble on one section: the memory is that of the two-pass assembler. */
    method Assemble(items: seq<Item>)
      requires M.Length == VSIZE && labv.Length == LABELS && SectionOk(items, p) && Logs(log, got, M[..])
      modifies this, M, labv
      ensures Logs(log, got, M[..]) && (old(Prompt(log)) && WholeWords(items, 0) ==> Prompt(log))
      ensures var s := TwoPass(State(old(M[..]), old(p), 0), items); M[..] == s.mem && p == s.p
    {
      hide Tracks, Fresh, Labels, SetOnce, Put, ItemsOk, ItemOk, LabelsOk, Unset, Logs, Written, Prompt, JustStored;
      ghost var whole := Prompt(log) && WholeWords(items, 0);
      ghost var labels, lo, hi, used := Labels(items, p, 0), p, End(items, p, 0), {};
      ghost var s := State(M[..], p, 0);
      ghost var end := TwoPass(s, items);
      SectionStart(items, p, s);
      Clear();
      TracksInit(M[..], labels);
      var i := 0;
      while i < |items|
        invariant 0 <= i <= |items| && Follows(s, labels) && Apart(used, lo, hi)
        invariant RestOk(items[i..], p, cp, used, lo, hi, labels) && LabelsOk(labels)
        invariant PutAll(s, items[i..], labels) == end
        invariant Traced() && (whole ==> Calm() && WholeWords(items[i..], cp))
        invariant forall n :: 0 <= n < LABELS && n in labels ==> (labv[n] < 0 <==> Unset(items[i..], n))
        invariant forall n :: 0 <= n < LABELS && labv[n] < 0 ==> n in labels
      {
        ghost var rest := items[i..];
        assert rest[0] == items[i] && rest[1..] == items[i + 1..];
        RestStep(rest, p, cp, used, lo, hi, labels);
        MarkInRange(items[i], labels);
        Assemble1(items[i], s, labels, used, lo, hi);
        s, used := Put(s, items[i], labels), Used(items[i], used);
        i := i + 1;
      }
      assert items[i..] == [];
      NoneLeft();
      TracksDone(M[..], s.mem, labv[..], t, labels);
    }
  }

  /** Every section fits where the ones before it end. */
  predicate SectionsOk(sections: seq<seq<Item>>, p: nat)
    decreases |sections|
  {
    sections == [] || (SectionOk(sections[0], p) && SectionsOk(sections[1..], End(sections[0], p, 0)))
  }

  function TwoPassAll(s: State, sections: seq<seq<Item>>): State
    requires |s.mem| == VSIZE && SectionsOk(sections, s.p)
    decreases |sections|
  {
    if sections == [] then s else TwoPassAll(TwoPass(s, sections[0]).(cp := 0), sections[1..])
  }

  /** The three words in front of every program: load the address, call it, exit. */
  function Prelude(): State {
    State(seq(VSIZE, _ => 0)[MPROG := 5121][MPROG + 1 := 49154][MPROG + 2 := 57366], MPROG + 3, 0)
  }

  /** The words in front of a program load the start routine from global 1, call it with the stack two words up, and
      stop when it returns. */
  lemma PreludeCalls(items: seq<Item>, k: nat, m: nat)
    requires SectionOk(items, MPROG + 3) && k < |items| && m < |items| && items[k].Global? && items[k].g == 1 && items[m] == Mark(items[k].n)
    requires forall i :: 0 <= i < |items| && items[i].Global? ==> !(402 <= GlobalCell(items[i].g) < 405)
    ensures
      var mem := TwoPass(Prelude(), items).mem;
      && Decode(mem, 402) == Instruction(0, true, false, true, 1, 403)
      && (forall p :: Effective(mem, Decode(mem, 402), p) == AddressOf(items, m, 405, 0))
      && Decode(mem, 403) == Instruction(6, false, false, false, 2, 404)
      && Decode(mem, 404) == Instruction(7, false, false, false, 22, 405)
  {
    hide TwoPass, PutAll, Labels, End, AddressOf, SectionOk, RestOk, Decode, Effective;
    var s, labels, hi := Prelude(), Labels(items, 405, 0), End(items, 405, 0);
    OnceOnly(items, 405);
    SectionStart(items, 405, s);
    GlobalFilled(s, items, labels, {}, 405, hi, k);
    LabelIs(items, 405, 0, m);
    forall a | 402 <= a < 405 ensures TwoPass(s, items).mem[a] == s.mem[a] {
      CellKept(s, items, labels, {}, 405, hi, a);
    }
    ThreeWords(TwoPass(s, items).mem);
  }

  lemma OnceOnly(items: seq<Item>, p: nat)
    requires SectionOk(items, p)
    ensures SetOnce(items)
  {
  }

  lemma ThreeWords(mem: seq<Word>)
    requires |mem| == VSIZE && mem[402] == 5121 && mem[403] == 49154 && mem[404] == 57366
    ensures Decode(mem, 402) == Instruction(0, true, false, true, 1, 403) && forall p :: Effective(mem, Decode(mem, 402), p) == mem[2]
    ensures Decode(mem, 403) == Instruction(6, false, false, false, 2, 404)
    ensures Decode(mem, 404) == Instruction(7, false, false, false, 22, 405)
  {
  }

  /** The two characters of a word stand together: no G item comes between them. */
  predicate WholeWords(items: seq<Item>, cp: nat)
    decreases |items|
  {
    items == [] || (!(items[0].Global? && cp != 0) && WholeWords(items[1..], NextCp(items[0], cp)))
  }

  /** That is, a G item never finds a word half full. */
  lemma {:induction false} WholeWordsIs(items: seq<Item>, cp: nat)
    ensures WholeWords(items, cp) <==> forall k :: 0 <= k < |items| && items[k].Global? ==> CpAt(items, k, cp) == 0
    decreases |items|
  {
    if items != [] {
      WholeWordsIs(items[1..], NextCp(items[0], cp));
      forall k | 0 < k < |items| ensures CpAt(items, k, cp) == CpAt(items[1..], k - 1, NextCp(items[0], cp)) && items[k] == items[1..][k - 1] {
      }
      if WholeWords(items[1..], NextCp(items[0], cp)) {
        forall k | 0 < k < |items| && items[k].Global? ensures CpAt(items, k, cp) == 0 {
          assert items[1..][k - 1].Global?;
        }
      }
      if forall k :: 0 <= k < |items| && items[k].Global? ==> CpAt(items, k, cp) == 0 {
        forall k | 0 <= k < |items| - 1 && items[1..][k].Global? ensures CpAt(items[1..], k, NextCp(items[0], cp)) == 0 {
          assert items[k + 1].Global?;
        }
        assert items[0].Global? ==> CpAt(items, 0, cp) == 0;
      }
    }
  }

  /** main: link all the sections of a program.  log and got are the accesses to memory and what they read. */
  method Link(sections: seq<seq<Item>>) returns (m: seq<Word>, p: nat, ghost log: Log, ghost got: seq<Word>)
    requires SectionsOk(sections, MPROG + 3)
    ensures var s := TwoPassAll(Prelude(), sections); m == s.mem && p == s.p
    ensures Logs(log, got, m) && ((forall i :: 0 <= i < |sections| ==> WholeWords(sections[i], 0)) ==> Prompt(log))
  {
    hide SectionOk, TwoPass, Logs, Written, Prompt, JustStored, WholeWords;
    var l := new Linker();
    NoSums();
    l.Stw(5121);
    l.Stw(49154);
    l.Stw(57366);
    ghost var s := Prelude();
    assert sections[0..] == sections;
    var i := 0;
    while i < |sections|
      invariant 0 <= i <= |sections| && l.M.Length == VSIZE && l.labv.Length == LABELS && fresh(l) && fresh(l.M) && fresh(l.labv)
      invariant s == State(l.M[..], l.p, 0) && SectionsOk(sections[i..], s.p)
      invariant TwoPassAll(s, sections[i..]) == TwoPassAll(Prelude(), sections)
      invariant Logs(l.log, l.got, l.M[..])
      invariant (forall j :: 0 <= j < i ==> WholeWords(sections[j], 0)) ==> Prompt(l.log)
    {
      assert sections[i..][0] == sections[i] && sections[i..][1..] == sections[i + 1..];
      l.Assemble(sections[i]);
      s := TwoPass(s, sections[i]).(cp := 0);
      i := i + 1;
    }
    assert sections[i..] == [];
    m, p, log, got := l.M[..], l.p, l.log, l.got;
  }

  lemma NoSums()
    ensures Prompt([])
  {
  }

  /** The cells of a thread wait. */
  lemma ThreadWaits(mem: seq<Word>, two: seq<Word>, labv: seq<int>, t: Threads, labels: map<nat, nat>, n: nat)
    requires Tracks(mem, two, labv, t, labels) && n < LABELS
    ensures |t.cells| == LABELS && forall a :: a in t.cells[n] ==> a in t.place
  {
  }

  lemma MarkInRange(item: Item, labels: map<nat, nat>)
    requires ItemOk(item, labels)
    ensures item.Mark? ==> item.n < LABELS
  {
  }

  lemma NoneLeft()
    ensures forall n :: Unset([], n)
  {
  }

  lemma OpcodeRange(f: nat, ind: bool, stack: bool, global: bool)
    requires f < 8
    ensures Opcode(f, ind, stack, global) + DBIT + ABITS <= 65536
  {
  }

  /** A cell that does not wait is the same in both. */
  lemma NotWaiting(mem: seq<Word>, two: seq<Word>, labv: seq<int>, t: Threads, labels: map<nat, nat>, a: nat)
    requires Tracks(mem, two, labv, t, labels) && a < VSIZE && a !in t.place
    ensures mem[a] == two[a]
  {
  }

  lemma SameThreads(mem: seq<Word>, two: seq<Word>, labv: seq<int>, t: Threads, labels: map<nat, nat>)
    requires Tracks(mem, two, labv, t, labels)
    ensures |mem| == |two| == VSIZE && |labv| == |t.cells| == LABELS
    ensures forall n :: 0 <= n < LABELS && labv[n] < 0 ==> n in labels && labv[n] + labels[n] == 0
  {
  }
}
