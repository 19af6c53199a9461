/** The block lists of the flat memory manager (Kernel/flat_mem.c): every block of memory is on one list, in
    address order, linked both ways, and moveblks merges a segment of one list into another in place. */
module FlatMemory {
  const NIL: int := -1
  const MMU_BLKSIZE: nat := 8192

  /** The node behind position i of a list. */
  function At(s: seq<nat>, i: nat): int {
    if i < |s| then s[i] else NIL
  }

  /** The node in front of position i, h for the header. */
  function Before(h: nat, s: seq<nat>, i: nat): nat
    requires i <= |s|
  {
    if i == 0 then h else s[i - 1]
  }

  /** Everything of s, and h, is a node. */
  predicate Nodes(size: nat, h: nat, s: seq<nat>) {
    h < size && forall i :: 0 <= i < |s| ==> s[i] < size
  }

  /** The list with header h holds s, with next and prev inverse to each other. */
  predicate Linked(nx: seq<int>, pv: seq<int>, h: nat, s: seq<nat>) {
    && |nx| == |pv| && Nodes(|nx|, h, s)
    && nx[h] == At(s, 0)
    && forall i :: 0 <= i < |s| ==> LinkOk(nx, pv, h, s, i)
  }

  predicate LinkOk(nx: seq<int>, pv: seq<int>, h: nat, s: seq<nat>, i: nat)
    requires |nx| == |pv| && Nodes(|nx|, h, s) && i < |s|
  {
    nx[s[i]] == At(s, i + 1) && pv[s[i]] == Before(h, s, i)
  }

  /** s hangs together, whatever is in front of it. */
  predicate Segment(nx: seq<int>, pv: seq<int>, s: seq<nat>) {
    && |nx| == |pv| && (forall i :: 0 <= i < |s| ==> s[i] < |nx|)
    && forall i :: 0 <= i < |s| ==> SegmentOk(nx, pv, s, i)
  }

  predicate SegmentOk(nx: seq<int>, pv: seq<int>, s: seq<nat>, i: nat)
    requires |nx| == |pv| && i < |s| && forall j :: 0 <= j < |s| ==> s[j] < |nx|
  {
    nx[s[i]] == At(s, i + 1) && (i > 0 ==> pv[s[i]] == s[i - 1])
  }

  predicate Sorted(s: seq<nat>) {
    forall i, j :: 0 <= i < j < |s| ==> s[i] < s[j]
  }

  predicate Disjoint(s: seq<nat>, t: seq<nat>) {
    forall x :: x in s ==> x !in t
  }

  /** Two sorted lists made one. */
  function Merge(s: seq<nat>, t: seq<nat>): seq<nat>
    decreases |s| + |t|
  {
    if s == [] then t
    else if t == [] then s
    else if s[0] < t[0] then [s[0]] + Merge(s[1..], t)
    else [t[0]] + Merge(s, t[1..])
  }

  lemma {:induction false} MergeElements(s: seq<nat>, t: seq<nat>, x: nat)
    ensures x in Merge(s, t) <==> x in s || x in t
    ensures |Merge(s, t)| == |s| + |t|
    decreases |s| + |t|
  {
    if s != [] && t != [] {
      if s[0] < t[0] {
        assert s == [s[0]] + s[1..];
        MergeElements(s[1..], t, x);
      } else {
        assert t == [t[0]] + t[1..];
        MergeElements(s, t[1..], x);
      }
    }
  }

  lemma {:induction false} MergeSorted(s: seq<nat>, t: seq<nat>)
    requires Sorted(s) && Sorted(t) && Disjoint(s, t)
    ensures Sorted(Merge(s, t))
    decreases |s| + |t|
  {
    if s != [] && t != [] {
      assert s[0] in s && t[0] in t;
      if s[0] < t[0] {
        MergeSorted(s[1..], t);
        Least(s[0], s[1..], t);
      } else {
        MergeSorted(s, t[1..]);
        Least(t[0], s, t[1..]);
      }
    }
  }

  lemma Least(x: nat, s: seq<nat>, t: seq<nat>)
    requires Sorted(Merge(s, t)) && (forall y :: y in s ==> x < y) && (forall y :: y in t ==> x < y)
    ensures Sorted([x] + Merge(s, t))
  {
    var m := Merge(s, t);
    forall i | 0 <= i < |m| ensures x < m[i] {
      MergeElements(s, t, m[i]);
      assert m[i] in m;
    }
  }

  /** What comes first in one of the lists and below the other comes first. */
  lemma {:induction false} MergeFirst(s: seq<nat>, t: seq<nat>, k: nat)
    requires k <= |t| && s != [] && Sorted(t) && forall i :: 0 <= i < k ==> t[i] < s[0]
    ensures Merge(s, t) == t[..k] + Merge(s, t[k..])
    decreases k
  {
    hide Merge;
    if k > 0 {
      MergeHead(s, t);
      MergeFirst(s, t[1..], k - 1);
      assert t[1..][k - 1..] == t[k..] && t[..k] == [t[0]] + t[1..][..k - 1];
    } else {
      assert t[..0] == [] && t[0..] == t;
    }
  }

  lemma MergeHead(s: seq<nat>, t: seq<nat>)
    requires s != [] && t != [] && t[0] < s[0]
    ensures Merge(s, t) == [t[0]] + Merge(s, t[1..])
  {
  }

  // ------------------------------------------------------------------ links

  lemma LinkedFrame(nx: seq<int>, pv: seq<int>, nx': seq<int>, pv': seq<int>, h: nat, s: seq<nat>)
    requires Linked(nx, pv, h, s) && |nx'| == |pv'| == |nx|
    requires nx'[h] == nx[h] && forall x :: x in s ==> x < |nx| && nx'[x] == nx[x] && pv'[x] == pv[x]
    ensures Linked(nx', pv', h, s)
  {
    forall i | 0 <= i < |s| ensures LinkOk(nx', pv', h, s, i) {
      assert LinkOk(nx, pv, h, s, i) && s[i] in s;
    }
  }

  /** The segment from k to k + num taken out of its list. */
  lemma CutOut(nx: seq<int>, pv: seq<int>, h: nat, s: seq<nat>, k: nat, num: nat, nx': seq<int>, pv': seq<int>)
    requires Linked(nx, pv, h, s) && Sorted(s) && h !in s && num > 0 && k + num <= |s| && |nx'| == |pv'| == |nx|
    requires forall x :: 0 <= x < |nx| ==>
      nx'[x] == if x == Before(h, s, k) then At(s, k + num) else if x == s[k + num - 1] then NIL else nx[x]
    requires forall x :: 0 <= x < |nx| ==> pv'[x] == if x == At(s, k + num) then Before(h, s, k) else pv[x]
    ensures Linked(nx', pv', h, s[..k] + s[k + num..]) && Segment(nx', pv', s[k..k + num])
  {
    var r, seg := s[..k] + s[k + num..], s[k..k + num];
    forall i | 0 <= i < |r| ensures LinkOk(nx', pv', h, r, i) {
      var j := if i < k then i else i + num;
      assert r[i] == s[j] && LinkOk(nx, pv, h, s, j);
    }
    forall i | 0 <= i < |seg| ensures SegmentOk(nx', pv', seg, i) {
      assert seg[i] == s[k + i] && LinkOk(nx, pv, h, s, k + i);
    }
  }

  predicate Distinct(s: seq<nat>) {
    forall i, j :: 0 <= i < j < |s| ==> s[i] != s[j]
  }

  /** The whole segment appended behind pre. */
  lemma LinkEnd(nx: seq<int>, pv: seq<int>, h: nat, pre: seq<nat>, seg: seq<nat>, nx': seq<int>, pv': seq<int>)
    requires Linked(nx, pv, h, pre) && Segment(nx, pv, seg) && seg != [] && |nx'| == |pv'| == |nx|
    requires Distinct(pre) && Distinct(seg) && Disjoint(pre, seg) && h !in pre && h !in seg
    requires forall x :: 0 <= x < |nx| ==> nx'[x] == if x == Before(h, pre, |pre|) then seg[0] else nx[x]
    requires forall x :: 0 <= x < |nx| ==> pv'[x] == if x == seg[0] then Before(h, pre, |pre|) else pv[x]
    ensures Linked(nx', pv', h, pre + seg)
  {
    var r := pre + seg;
    assert Nodes(|nx|, h, r);
    forall i | 0 <= i < |r| ensures LinkOk(nx', pv', h, r, i) {
      if i < |pre| {
        assert r[i] == pre[i] && pre[i] in pre && LinkOk(nx, pv, h, pre, i);
      } else {
        assert r[i] == seg[i - |pre|] && seg[i - |pre|] in seg && SegmentOk(nx, pv, seg, i - |pre|);
      }
    }
  }

  /** The first m of the segment put between pre and rest. */
  lemma LinkRun(nx: seq<int>, pv: seq<int>, h: nat, pre: seq<nat>, rest: seq<nat>, seg: seq<nat>, m: nat, nx': seq<int>, pv': seq<int>)
    requires Linked(nx, pv, h, pre + rest) && Segment(nx, pv, seg) && 1 <= m <= |seg| && rest != [] && |nx'| == |pv'| == |nx|
    requires Distinct(pre + rest) && Distinct(seg) && Disjoint(pre + rest, seg) && h !in pre + rest && h !in seg
    requires forall x :: 0 <= x < |nx| ==>
      nx'[x] == if x == Before(h, pre, |pre|) then seg[0] else if x == seg[m - 1] then rest[0] else nx[x]
    requires forall x :: 0 <= x < |nx| ==>
      pv'[x] == if x == seg[0] then Before(h, pre, |pre|) else if x == rest[0] then seg[m - 1] else pv[x]
    ensures Linked(nx', pv', h, pre + seg[..m] + rest) && Segment(nx', pv', seg[m..])
  {
    var r, l := pre + seg[..m] + rest, pre + rest;
    forall i | 0 <= i < |r| ensures r[i] < |nx| && (i < |pre| || i >= |pre| + m ==> r[i] in l) {
      assert r[i] == if i < |pre| then l[i] else if i < |pre| + m then seg[i - |pre|] else l[i - m];
    }
    forall i | 0 <= i < |r| ensures LinkOk(nx', pv', h, r, i) {
      if |pre| <= i < |pre| + m {
        assert r[i] == seg[i - |pre|] && seg[i - |pre|] in seg && SegmentOk(nx, pv, seg, i - |pre|);
      } else {
        var j := if i < |pre| then i else i - m;
        assert r[i] == l[j] && LinkOk(nx, pv, h, l, j);
        assert l[|pre|] == rest[0] && (|pre| > 0 ==> l[|pre| - 1] == pre[|pre| - 1]);
        assert i + 1 < |r| ==> r[i + 1] == if i + 1 < |pre| then l[i + 1] else if i + 1 < |pre| + m then seg[0] else l[j + 1];
      }
    }
    forall i | 0 <= i < |seg| - m ensures SegmentOk(nx', pv', seg[m..], i) {
      assert seg[m..][i] == seg[m + i] && seg[m + i] in seg && SegmentOk(nx, pv, seg, m + i);
    }
  }

  /** One turn of the merge of moveblks. */
  lemma MergeSkip(pre: seq<nat>, rest: seq<nat>, seg: seq<nat>)
    requires rest != [] && seg != [] && rest[0] < seg[0]
    ensures pre + Merge(rest, seg) == pre + [rest[0]] + Merge(rest[1..], seg)
    ensures pre + [rest[0]] + rest[1..] == pre + rest
  {
    assert Merge(rest, seg) == [rest[0]] + Merge(rest[1..], seg);
    hide Merge;
    assert [rest[0]] + rest[1..] == rest;
  }

  lemma MergeRun(pre: seq<nat>, rest: seq<nat>, seg: seq<nat>, m: nat)
    requires rest != [] && m <= |seg| && Sorted(seg) && (forall i :: 0 <= i < m ==> seg[i] < rest[0]) && (m < |seg| ==> rest[0] < seg[m])
    ensures pre + Merge(rest, seg) == pre + seg[..m] + Merge(rest, seg[m..])
    ensures m == |seg| ==> pre + Merge(rest, seg) == pre + seg[..m] + rest
    ensures m < |seg| ==> pre + Merge(rest, seg) == pre + seg[..m] + [rest[0]] + Merge(rest[1..], seg[m..])
  {
    MergeFirst(rest, seg, m);
    if m == |seg| {
      assert Merge(rest, seg[m..]) == rest;
    }
  }

  lemma SortedDistinct(s: seq<nat>)
    requires Sorted(s)
    ensures Distinct(s)
  {
  }

  lemma SortedRun(pre: seq<nat>, rest: seq<nat>, seg: seq<nat>, m: nat)
    requires Sorted(pre + rest) && Sorted(seg) && 1 <= m <= |seg| && rest != []
    requires forall x :: x in pre ==> x < seg[0]
    requires (forall i :: 0 <= i < m ==> seg[i] < rest[0]) && (m < |seg| ==> rest[0] < seg[m])
    ensures Sorted(pre + seg[..m] + rest) && Sorted(seg[m..])
    ensures m < |seg| ==> forall x :: x in pre + seg[..m] + [rest[0]] ==> x < seg[m]
  {
    var r, l := pre + seg[..m] + rest, pre + rest;
    assert forall i :: 0 <= i < |pre| ==> pre[i] in pre && l[i] == pre[i];
    assert forall i :: 0 <= i < |rest| ==> l[|pre| + i] == rest[i];
    forall i, j | 0 <= i < j < |r| ensures r[i] < r[j] {
      assert r[i] == if i < |pre| then l[i] else if i < |pre| + m then seg[i - |pre|] else l[i - m];
      assert r[j] == if j < |pre| then l[j] else if j < |pre| + m then seg[j - |pre|] else l[j - m];
      assert l[|pre|] == rest[0];
    }
  }

  /** How many blocks vmmu_init counts, and how many it puts on the list: every block start below the top. */
  function MapSize(space: nat, entry: nat): nat {
    space / (MMU_BLKSIZE + entry)
  }

  function MapBlocks(space: nat, entry: nat): nat {
    var room := space - MapSize(space, entry) * entry;
    if room <= 0 then 0 else (room + MMU_BLKSIZE - 1) / MMU_BLKSIZE
  }

  /** The two agree exactly when nothing is left over. */
  lemma MapAccount(space: nat, entry: nat)
    ensures MapSize(space, entry) <= MapBlocks(space, entry)
    ensures MapSize(space, entry) == MapBlocks(space, entry) <==> space % (MMU_BLKSIZE + entry) == 0
  {
    var n, rest := MapSize(space, entry), space % (MMU_BLKSIZE + entry);
    assert space == n * (MMU_BLKSIZE + entry) + rest;
    assert n * (MMU_BLKSIZE + entry) == n * MMU_BLKSIZE + n * entry;
  }

  function Count(n: nat): seq<nat> {
    seq(n, i => i)
  }

  function Headers(n: nat, procs: nat): (m: map<int, seq<nat>>)
    ensures forall h :: h in m <==> n <= h < n + procs
    ensures forall h :: h in m ==> m[h] == []
  {
    if procs == 0 then map[] else Headers(n, procs - 1)[n + procs - 1 := []]
  }

  lemma CountIs(n: nat)
    ensures Sorted(Count(n)) && |Count(n)| == n && (forall x :: x in Count(n) <==> 0 <= x < n)
  {
    forall x | 0 <= x < n ensures x in Count(n) {
      assert Count(n)[x] == x;
    }
  }

  lemma EmptyLinked(nx: seq<int>, pv: seq<int>, h: nat)
    requires |nx| == |pv| && h < |nx| && nx[h] == NIL
    ensures Linked(nx, pv, h, []) && Sorted([])
  {
  }

  lemma CountLinked(nx: seq<int>, pv: seq<int>, n: nat)
    requires |nx| == |pv| && n < |nx| && nx[n] == (if n == 0 then NIL else 0)
    requires forall x :: 0 <= x < n ==> pv[x] == if x == 0 then n else x - 1
    requires forall x :: 0 <= x < n ==> nx[x] == if x == n - 1 then NIL else x + 1
    ensures Linked(nx, pv, n, Count(n))
  {
    forall i | 0 <= i < n ensures LinkOk(nx, pv, n, Count(n), i) {
    }
  }

  class Memory {
    const blocks: nat
    const heads: nat
    const next: array<int>
    const prev: array<int>
    const home: array<int>
    const gap: array<int>
    var freemem: int
    /** The blocks of every list, by header. */
    ghost var lists: map<int, seq<nat>>

    predicate Separate() {
      next != prev && next != home && prev != home && gap != next && gap != prev && gap != home
    }

    /** Headers come behind the blocks; the first is the free list. */
    ghost predicate Valid()
      reads this, next, prev, home
    {
      && next.Length == prev.Length == blocks + heads && home.Length == gap.Length == blocks && heads > 0
      && Separate()
      && (forall h :: h in lists <==> blocks <= h < blocks + heads)
      && (forall h: nat :: h in lists ==> ListOk(h))
      && (forall x :: 0 <= x < blocks ==> home[x] in lists && x in lists[home[x]])
    }

    ghost predicate ListOk(h: nat)
      requires h in lists && home.Length == blocks
      reads this, next, prev, home
    {
      && Linked(next[..], prev[..], h, lists[h]) && Sorted(lists[h])
      && forall x :: x in lists[h] ==> x < blocks && home[x] == h
    }

    /** freemem against the length of the free list. */
    ghost predicate Accounted()
      requires blocks in lists
      reads this
    {
      freemem == MMU_BLKSIZE * |lists[blocks]|
    }

    /** vmmu_init on space bytes, with blockmap entries of entry bytes in front of the blocks. */
    constructor (space: nat, entry: nat, procs: nat)
      ensures Valid() && heads == procs + 1 && blocks == MapBlocks(space, entry)
      ensures lists[blocks] == Count(blocks) && forall h :: h in lists && h != blocks ==> lists[h] == []
      ensures freemem == MMU_BLKSIZE * MapSize(space, entry)
      ensures Accounted() <==> space % (MMU_BLKSIZE + entry) == 0
      ensures fresh(next) && fresh(prev) && fresh(home) && fresh(gap)
    {
      hide Linked, Sorted, Count, MapBlocks, MapSize;
      var n := MapBlocks(space, entry);
      blocks, heads := n, procs + 1;
      next := new int[n + procs + 1](_ => NIL);
      prev := new int[n + procs + 1](_ => NIL);
      home := new int[n](_ => NIL);
      gap := new int[n](_ => 0);
      freemem := MapSize(space, entry) * MMU_BLKSIZE;
      lists := Headers(n, procs + 1)[n := Count(n)];
      new;
      Thread(n, procs);
      CountIs(n);
      forall h: nat | h in lists ensures ListOk(h) {
        if h != n {
          EmptyLinked(next[..], prev[..], h);
        }
      }
      MapAccount(space, entry);
    }

    /** The loop of vmmu_init. */
    method Thread(n: nat, procs: nat)
      requires next.Length == prev.Length == n + procs + 1 && home.Length == n && Separate()
      requires forall h :: n <= h < n + procs + 1 ==> next[h] == NIL
      modifies next, prev, home
      ensures Linked(next[..], prev[..], n, Count(n))
      ensures forall h :: n < h < n + procs + 1 ==> next[h] == NIL
      ensures forall x :: 0 <= x < n ==> home[x] == n
    {
      var last, blk := n, 0;
      while blk < n
        invariant 0 <= blk <= n && last == (if blk == 0 then n else blk - 1)
        invariant forall h :: n < h < n + procs + 1 ==> next[h] == NIL
        invariant blk > 0 ==> next[n] == 0
        invariant forall x :: 0 <= x < blk ==> home[x] == n && prev[x] == (if x == 0 then n else x - 1)
        invariant forall x :: 0 <= x < blk - 1 ==> next[x] == x + 1
      {
        next[last] := blk;
        prev[blk] := last;
        home[blk] := n;
        last := blk;
        blk := blk + 1;
      }
      next[last] := NIL;
      CountLinked(next[..], prev[..], n);
    }

    /** listlen of a whole list. */
    method ListLen(h: nat) returns (count: nat)
      requires Valid() && h in lists
      ensures count == |lists[h]|
    {
      assert ListOk(h);
      count := 0;
      var list := next[h];
      while list != NIL
        invariant 0 <= count <= |lists[h]| && list == At(lists[h], count)
        decreases |lists[h]| - count
      {
        assert LinkOk(next[..], prev[..], h, lists[h], count);
        count := count + 1;
        list := next[list];
      }
    }

    /** vmmu_free: all the blocks of a process go back to the free list, in their places. */
    method VmmuFree(list: nat)
      requires Valid() && list in lists && blocks in lists && list != blocks
      modifies this, next, prev, home, gap
      ensures Valid() && lists == old(lists)[list := []][blocks := Merge(old(lists[blocks]), old(lists[list]))]
      ensures freemem - MMU_BLKSIZE * |lists[blocks]| == old(freemem - MMU_BLKSIZE * |lists[blocks]|)
    {
      assert ListOk(list) && ListOk(blocks);
      if next[list] != NIL {
        ghost var l := lists[list];
        var n := ListLen(list);
        MoveBlks(list, blocks, next[list], n, 0);
        assert l[..0] + l[0 + n..] == [] && l[0..0 + n] == l;
        assert ListOk(list);
        ghost var nx := next[..];
        next[list] := NIL;
        assert next[..] == nx;
      } else {
        assert lists[list] == [] && Merge(lists[blocks], []) == lists[blocks];
      }
    }

    /** The first loop of moveblks: give the blocks their new home and count them in or out of free memory. */
    method Assign(slist: nat, dlist: nat, first: nat, num: nat, ghost s: seq<nat>, ghost k: nat) returns (after: int)
      requires next.Length == prev.Length == blocks + heads && home.Length == gap.Length == blocks && Separate()
      requires Linked(next[..], prev[..], slist, s) && k + num <= |s| && num > 0 && s[k] == first
      requires forall x :: x in s ==> x < blocks
      modifies this`freemem, home, gap
      ensures after == At(s, k + num)
      ensures forall x :: 0 <= x < blocks ==> home[x] == if x in s[k..k + num] then dlist else old(home[x])
      ensures forall x :: 0 <= x < blocks && x in s[k..k + num] ==> gap[x] == 0
      ensures freemem == old(freemem) + (if dlist == blocks then num * MMU_BLKSIZE else 0) - (if slist == blocks then num * MMU_BLKSIZE else 0)
    {
      after := first;
      var i := num;
      while after != NIL && i > 0
        invariant 0 <= i <= num && after == At(s, k + num - i)
        invariant forall x :: 0 <= x < blocks ==> home[x] == if x in s[k..k + num - i] then dlist else old(home[x])
        invariant forall x :: 0 <= x < blocks && x in s[k..k + num - i] ==> gap[x] == 0
        invariant freemem == old(freemem) + (if dlist == blocks then (num - i) * MMU_BLKSIZE else 0)
          - (if slist == blocks then (num - i) * MMU_BLKSIZE else 0)
        decreases i
      {
        ghost var j: nat := k + num - i;
        assert LinkOk(next[..], prev[..], slist, s, j) && s[j] in s;
        assert s[k..j + 1] == s[k..j] + [s[j]];
        i := i - 1;
        home[after] := dlist;
        gap[after] := 0;
        after := next[after];
        if dlist == blocks {
          freemem := freemem + MMU_BLKSIZE;
        }
        if slist == blocks {
          freemem := freemem - MMU_BLKSIZE;
        }
      }
    }

    /** The segment leaves its list. */
    method Cut(slist: nat, first: nat, after: int, ghost s: seq<nat>, ghost k: nat, ghost num: nat)
      requires next.Length == prev.Length && next != prev && Linked(next[..], prev[..], slist, s) && Sorted(s) && slist !in s
      requires num > 0 && k + num <= |s| && first == s[k] && after == At(s, k + num)
      modifies next, prev
      ensures Linked(next[..], prev[..], slist, s[..k] + s[k + num..]) && Segment(next[..], prev[..], s[k..k + num])
      ensures forall x :: 0 <= x < next.Length && x !in s && x != slist ==> next[x] == old(next[x]) && prev[x] == old(prev[x])
    {
      ghost var nx, pv := next[..], prev[..];
      assert LinkOk(nx, pv, slist, s, k) && LinkOk(nx, pv, slist, s, k + num - 1);
      assert k + num < |s| ==> LinkOk(nx, pv, slist, s, k + num);
      if after != NIL {
        next[prev[after]] := NIL;
      }
      next[prev[first]] := after;
      if after != NIL {
        prev[after] := prev[first];
      }
      CutOut(nx, pv, slist, s, k, num, next[..], prev[..]);
    }

    /** The merge loop of moveblks: the segment at first goes into the list of header h. */
    method MergeIn(h: nat, first0: nat, num0: nat, ghost d: seq<nat>, ghost seg0: seq<nat>)
      requires next.Length == prev.Length && next != prev && Linked(next[..], prev[..], h, d) && Segment(next[..], prev[..], seg0)
      requires num0 == |seg0| > 0 && first0 == seg0[0] && Sorted(d) && Sorted(seg0) && Disjoint(d, seg0) && h !in d && h !in seg0
      modifies next, prev
      ensures Linked(next[..], prev[..], h, Merge(d, seg0))
      ensures forall x :: 0 <= x < next.Length && x !in d && x !in seg0 && x != h ==> next[x] == old(next[x]) && prev[x] == old(prev[x])
    {
      hide Linked, Segment, Sorted, Disjoint, Merge;
      var dlist, first, num := h, first0, num0;
      ghost var pre: seq<nat>, rest: seq<nat>, seg: seq<nat> := [], d, seg0;
      assert [] + d == d && [] + Merge(d, seg0) == Merge(d, seg0);
      while true
        invariant Merging(next[..], prev[..], h, pre, rest, seg, d, seg0)
        invariant dlist == Before(h, pre, |pre|) && first == seg[0] && num == |seg|
        invariant forall x :: 0 <= x < next.Length && x !in d && x !in seg0 && x != h ==> next[x] == old(next[x]) && prev[x] == old(prev[x])
        decreases |rest|
      {
        MergingFacts(next[..], prev[..], h, pre, rest, seg, d, seg0);
        ghost var nx0, pv0 := next[..], prev[..];
        if next[dlist] == NIL {
          next[dlist] := first;
          prev[first] := dlist;
          MergingEnd(nx0, pv0, h, pre, rest, seg, d, seg0, next[..], prev[..]);
          break;
        }
        if next[dlist] < first {
          MergingSkip(next[..], prev[..], h, pre, rest, seg, d, seg0);
          dlist := next[dlist];
          pre, rest := pre + [rest[0]], rest[1..];
        } else {
          // equality would be the panic "vmmu collision"
          assert next[dlist] != first;
          var nlink := next[dlist];
          ghost var m;
          first, num, m := PutRun(h, dlist, first, num, pre, rest, seg, d, seg0);
          if num == 0 {
            break;
          }
          dlist := nlink;
          pre, rest, seg := pre + seg[..m] + [rest[0]], rest[1..], seg[m..];
        }
      }
    }

    /** The inner loop: the last block of the segment below nlink, and how many are left from there. */
    method RunEnd(first0: int, num0: int, nlink: int, ghost seg: seq<nat>) returns (first: int, num: int, ghost m: nat)
      requires seg != [] && first0 == seg[0] < nlink && num0 == |seg|
      requires forall i :: 0 <= i < |seg| ==> seg[i] < next.Length && next[seg[i]] == At(seg, i + 1)
      ensures 1 <= m <= |seg| && first == seg[m - 1] && num == |seg| - m + 1
      ensures forall i :: 0 <= i < m ==> seg[i] < nlink
      ensures m < |seg| ==> nlink <= seg[m]
    {
      first, num, m := first0, num0, 1;
      while next[first] != NIL && next[first] < nlink
        invariant 1 <= m <= |seg| && first == seg[m - 1] && num == |seg| - m + 1
        invariant forall i :: 0 <= i < m ==> seg[i] < nlink
        decreases num
      {
        num := num - 1;
        if num == 0 {
          break;
        }
        first := next[first];
        m := m + 1;
      }
    }

    /** The branch of the merge loop that puts as much of the segment as fits in front of the next block. */
    method PutRun(h: nat, dlist: int, first0: int, num0: int, ghost pre: seq<nat>, ghost rest: seq<nat>, ghost seg: seq<nat>,
                  ghost d: seq<nat>, ghost seg0: seq<nat>) returns (first: int, num: int, ghost m: nat)
      requires next.Length == prev.Length && next != prev && Merging(next[..], prev[..], h, pre, rest, seg, d, seg0)
      requires rest != [] && dlist == Before(h, pre, |pre|) && first0 == seg[0] < rest[0] && num0 == |seg|
      modifies next, prev
      ensures 1 <= m <= |seg| && num == |seg| - m
      ensures m == |seg| ==> Linked(next[..], prev[..], h, Merge(d, seg0))
      ensures m < |seg| ==> first == seg[m] && Merging(next[..], prev[..], h, pre + seg[..m] + [rest[0]], rest[1..], seg[m..], d, seg0)
      ensures forall x :: 0 <= x < next.Length && x !in d && x !in seg0 && x != h ==> next[x] == old(next[x]) && prev[x] == old(prev[x])
    {
      hide Merging, Linked, Merge, Segment, Sorted, Disjoint;
      ghost var nx, pv := next[..], prev[..];
      MergingFacts(nx, pv, h, pre, rest, seg, d, seg0);
      var nlink := next[dlist];
      next[dlist] := first0;
      prev[first0] := dlist;
      first, num, m := RunEnd(first0, num0, nlink, seg);
      num := num - 1;
      if num == 0 {
        next[first] := nlink;
        prev[nlink] := first;
      } else {
        var ofirst := next[first];
        next[first] := nlink;
        prev[nlink] := first;
        first := ofirst;
      }
      assert next[..] == nx[dlist := seg[0]][seg[m - 1] := rest[0]];
      assert prev[..] == pv[seg[0] := dlist][rest[0] := seg[m - 1]];
      MergingRun(nx, pv, h, pre, rest, seg, d, seg0, m, next[..], prev[..]);
    }

    /** moveblks: num blocks of a list, from the one at position k, merged into another list. */
    method MoveBlks(slist: nat, dlist: nat, first: int, num: nat, ghost k: nat)
      requires Valid() && slist in lists && dlist in lists && slist != dlist
      requires num > 0 ==> k + num <= |lists[slist]| && first == lists[slist][k]
      modifies this, next, prev, home, gap
      ensures Valid()
      ensures num == 0 ==> lists == old(lists) && freemem == old(freemem)
      ensures num > 0 ==>
        var s, d := old(lists[slist]), old(lists[dlist]);
        && lists == old(lists)[slist := s[..k] + s[k + num..]][dlist := Merge(d, s[k..k + num])]
        && (forall x :: 0 <= x < blocks && x in s[k..k + num] ==> gap[x] == 0)
        && (blocks in lists ==> freemem - MMU_BLKSIZE * |lists[blocks]| == old(freemem - MMU_BLKSIZE * |lists[blocks]|))
    {
      hide Linked, Segment, Sorted, Merge, Disjoint;
      if num == 0 {
        return;
      }
      ghost var s, d, home0 := lists[slist], lists[dlist], home[..];
      ghost var seg, left := s[k..k + num], s[..k] + s[k + num..];
      ghost var nx, pv := next[..], prev[..];
      assert ListOk(slist) && ListOk(dlist);
      var after := Assign(slist, dlist, first, num, s, k);
      Cut(slist, first, after, s, k, num);
      Apart(s, d, k, num, seg, left);
      LinkedFrame(nx, pv, next[..], prev[..], dlist, d);
      ghost var nx1, pv1 := next[..], prev[..];
      MergeIn(dlist, first, num, d, seg);
      LinkedFrame(nx1, pv1, next[..], prev[..], slist, left);
      MergeSorted(d, seg);
      lists := lists[slist := left][dlist := Merge(d, seg)];
      forall h: nat | h in lists ensures ListOk(h) {
        if h == dlist {
          MergedHomes(d, seg, home0, home[..], dlist, blocks);
        } else if h != slist {
          assert old(ListOk(h));
          LinkedFrame(nx, pv, next[..], prev[..], h, lists[h]);
        }
      }
      EveryHome(s, d, k, num, home0, home[..], slist, dlist, old(lists), lists, blocks);
      MergeElements(d, seg, 0);
    }
  }

  /** The parts of a sorted list, next to a list of other blocks. */
  lemma Apart(s: seq<nat>, d: seq<nat>, k: nat, num: nat, seg: seq<nat>, left: seq<nat>)
    requires Sorted(s) && Sorted(d) && k + num <= |s| && forall x :: x in s ==> x !in d
    requires seg == s[k..k + num] && left == s[..k] + s[k + num..]
    ensures Sorted(seg) && Sorted(left) && Disjoint(d, seg) && Disjoint(left, d) && Disjoint(left, seg)
    ensures (forall x :: x in seg ==> x in s) && (forall x :: x in left ==> x in s)
    ensures forall x :: x in s ==> x in seg || x in left
  {
    Parts(s, k, num);
    forall i, j | 0 <= i < j < |left| ensures left[i] < left[j] {
      assert left[i] == s[if i < k then i else i + num] && left[j] == s[if j < k then j else j + num];
    }
  }

  lemma Parts(s: seq<nat>, k: nat, num: nat)
    requires Sorted(s) && k + num <= |s|
    ensures forall x :: x in s ==> x in s[k..k + num] || x in s[..k] + s[k + num..]
    ensures forall x :: x in s[k..k + num] ==> x in s
    ensures forall x :: x in s[..k] + s[k + num..] ==> x in s && x !in s[k..k + num]
  {
    hide Sorted;
    var a, b, c := s[..k], s[k..k + num], s[k + num..];
    assert s == a + b + c;
    forall x | x in b ensures x !in a && x !in c {
      Between(a, b, c, x);
    }
  }

  lemma Between(a: seq<nat>, b: seq<nat>, c: seq<nat>, x: nat)
    requires Sorted(a + b + c) && x in b
    ensures x !in a && x !in c
  {
    var s := a + b + c;
    var i :| 0 <= i < |b| && b[i] == x;
    assert s[|a| + i] == x;
    assert forall j :: 0 <= j < |a| ==> s[j] == a[j];
    assert forall j :: 0 <= j < |c| ==> s[|a| + |b| + j] == c[j];
  }

  lemma MergedHomes(d: seq<nat>, seg: seq<nat>, home: seq<int>, home': seq<int>, h: nat, blocks: nat)
    requires |home| == |home'| == blocks && forall x :: x in d || x in seg ==> x < blocks
    requires forall x :: 0 <= x < blocks ==> home'[x] == if x in seg then h else home[x]
    requires forall x :: x in d ==> home[x] == h
    ensures forall x :: x in Merge(d, seg) ==> x < blocks && home'[x] == h
  {
    forall x | x in Merge(d, seg) ensures x < blocks && home'[x] == h {
      MergeElements(d, seg, x);
    }
  }

  lemma EveryHome(s: seq<nat>, d: seq<nat>, k: nat, num: nat, home: seq<int>, home': seq<int>, slist: nat, dlist: nat,
                  lists: map<int, seq<nat>>, lists': map<int, seq<nat>>, blocks: nat)
    requires slist != dlist && slist in lists && dlist in lists && lists[slist] == s && lists[dlist] == d && k + num <= |s|
    requires lists' == lists[slist := s[..k] + s[k + num..]][dlist := Merge(d, s[k..k + num])]
    requires |home| == |home'| == blocks
    requires forall x :: 0 <= x < blocks ==> home'[x] == if x in s[k..k + num] then dlist else home[x]
    requires forall x :: 0 <= x < blocks ==> home[x] in lists && x in lists[home[x]]
    requires forall x :: x in s ==> x in s[k..k + num] || x in s[..k] + s[k + num..]
    ensures forall x :: 0 <= x < blocks ==> home'[x] in lists' && x in lists'[home'[x]]
  {
    forall x | 0 <= x < blocks ensures home'[x] in lists' && x in lists'[home'[x]] {
      MergeElements(d, s[k..k + num], x);
    }
  }

  /** Between two turns of the merge loop: pre is merged, rest is still to be passed, seg still to be put in. */
  ghost predicate Merging(nx: seq<int>, pv: seq<int>, h: nat, pre: seq<nat>, rest: seq<nat>, seg: seq<nat>, d: seq<nat>, seg0: seq<nat>) {
    && Linked(nx, pv, h, pre + rest) && Segment(nx, pv, seg) && seg != []
    && Sorted(pre + rest) && Sorted(seg) && Disjoint(pre + rest, seg) && h !in pre + rest && h !in seg
    && (forall x :: x in pre ==> x < seg[0])
    && (forall x :: x in pre + rest || x in seg ==> x in d || x in seg0)
    && pre + Merge(rest, seg) == Merge(d, seg0)
  }

  lemma MergingFacts(nx: seq<int>, pv: seq<int>, h: nat, pre: seq<nat>, rest: seq<nat>, seg: seq<nat>, d: seq<nat>, seg0: seq<nat>)
    requires Merging(nx, pv, h, pre, rest, seg, d, seg0)
    ensures seg != [] && |nx| == |pv| && Before(h, pre, |pre|) < |nx| && nx[Before(h, pre, |pre|)] == At(rest, 0)
    ensures forall i :: 0 <= i < |seg| ==> seg[i] < |nx| && nx[seg[i]] == At(seg, i + 1) && seg[i] != Before(h, pre, |pre|)
    ensures rest != [] ==> rest[0] < |nx| && forall i :: 0 <= i < |seg| ==> seg[i] != rest[0]
    ensures forall i, j :: 0 <= i < j < |seg| ==> seg[i] < seg[j]
    ensures Before(h, pre, |pre|) == h || Before(h, pre, |pre|) in d || Before(h, pre, |pre|) in seg0
    ensures forall i :: 0 <= i < |seg| ==> seg[i] in d || seg[i] in seg0
    ensures rest != [] ==> rest[0] in d || rest[0] in seg0
  {
    var l := pre + rest;
    forall i | 0 <= i < |seg|
      ensures seg[i] in seg && seg[i] < |nx| && nx[seg[i]] == At(seg, i + 1)
    {
      assert SegmentOk(nx, pv, seg, i);
    }
    if pre != [] {
      assert LinkOk(nx, pv, h, l, |pre| - 1) && l[|pre| - 1] == pre[|pre| - 1] && l[|pre| - 1] in l;
    }
    if rest != [] {
      assert l[|pre|] == rest[0] && l[|pre|] in l;
    }
  }

  lemma MergingSkip(nx: seq<int>, pv: seq<int>, h: nat, pre: seq<nat>, rest: seq<nat>, seg: seq<nat>, d: seq<nat>, seg0: seq<nat>)
    requires Merging(nx, pv, h, pre, rest, seg, d, seg0) && rest != [] && rest[0] < seg[0]
    ensures Merging(nx, pv, h, pre + [rest[0]], rest[1..], seg, d, seg0)
  {
    hide Linked, Segment, Merge;
    MergeSkip(pre, rest, seg);
  }

  lemma MergingEnd(nx: seq<int>, pv: seq<int>, h: nat, pre: seq<nat>, rest: seq<nat>, seg: seq<nat>, d: seq<nat>, seg0: seq<nat>,
                   nx': seq<int>, pv': seq<int>)
    requires Merging(nx, pv, h, pre, rest, seg, d, seg0) && rest == [] && |nx'| == |pv'| == |nx|
    requires forall x :: 0 <= x < |nx| ==> nx'[x] == if x == Before(h, pre, |pre|) then seg[0] else nx[x]
    requires forall x :: 0 <= x < |nx| ==> pv'[x] == if x == seg[0] then Before(h, pre, |pre|) else pv[x]
    ensures Linked(nx', pv', h, Merge(d, seg0))
  {
    hide Linked, Segment;
    assert pre + rest == pre && Merge(rest, seg) == seg;
    SortedDistinct(pre);
    SortedDistinct(seg);
    LinkEnd(nx, pv, h, pre, seg, nx', pv');
  }

  lemma MergingRun(nx: seq<int>, pv: seq<int>, h: nat, pre: seq<nat>, rest: seq<nat>, seg: seq<nat>, d: seq<nat>, seg0: seq<nat>,
                   m: nat, nx': seq<int>, pv': seq<int>)
    requires Merging(nx, pv, h, pre, rest, seg, d, seg0) && rest != [] && 1 <= m <= |seg| && |nx'| == |pv'| == |nx|
    requires (forall i :: 0 <= i < m ==> seg[i] < rest[0]) && (m < |seg| ==> rest[0] < seg[m])
    requires forall x :: 0 <= x < |nx| ==>
      nx'[x] == if x == Before(h, pre, |pre|) then seg[0] else if x == seg[m - 1] then rest[0] else nx[x]
    requires forall x :: 0 <= x < |nx| ==>
      pv'[x] == if x == seg[0] then Before(h, pre, |pre|) else if x == rest[0] then seg[m - 1] else pv[x]
    ensures m == |seg| ==> Linked(nx', pv', h, Merge(d, seg0))
    ensures m < |seg| ==> Merging(nx', pv', h, pre + seg[..m] + [rest[0]], rest[1..], seg[m..], d, seg0)
  {
    hide Linked, Segment, Merge;
    SortedDistinct(pre + rest);
    SortedDistinct(seg);
    LinkRun(nx, pv, h, pre, rest, seg, m, nx', pv');
    MergeRun(pre, rest, seg, m);
    SortedRun(pre, rest, seg, m);
    assert pre + seg[..m] + [rest[0]] + rest[1..] == pre + seg[..m] + rest;
    if m < |seg| {
      RunElements(pre, rest, seg, m);
    }
  }

  lemma RunElements(pre: seq<nat>, rest: seq<nat>, seg: seq<nat>, m: nat)
    requires Disjoint(pre + rest, seg) && Distinct(seg) && m <= |seg|
    ensures Disjoint(pre + seg[..m] + rest, seg[m..])
    ensures forall x :: x in pre + seg[..m] + rest ==> x in pre + rest || x in seg
    ensures forall x :: x in seg[m..] ==> x in seg
  {
    forall x | x in pre + seg[..m] + rest
      ensures x !in seg[m..] && (x in pre + rest || x in seg)
    {
      if x in pre + rest {
        assert forall y :: y in seg[m..] ==> y in seg;
      } else {
        var i :| 0 <= i < m && seg[i] == x;
        assert forall j :: m <= j < |seg| ==> seg[j] != x;
      }
    }
  }
}
