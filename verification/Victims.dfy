/** Which process swapvictim picks (Kernel/swap.c), and whether swapping processes out one after the other makes
    enough room (Kernel/bank16k.c). */
module Victims {
  import opened Banks

  /** p_status, as kernel.h numbers it. */
  const P_READY: nat := 2
  const P_FORKING: nat := 5

  /** What the scheduler keeps: where it looks next, the wait counter, and each process's status and p_waitno. */
  datatype Sched = Sched(nextp: nat, waitno: Word, status: seq<nat>, since: seq<Word>)

  predicate SchedOk(s: Sched, n: nat) {
    n > 0 && s.nextp < n && |s.status| == n && |s.since| == n
  }

  /** The process looked at after i others. */
  function Nth(s: Sched, n: nat, i: nat): (c: nat)
    requires SchedOk(s, n)
    ensures c < n
  {
    (s.nextp + i) % n
  }

  predicate Ready(s: Sched, res: seq<bool>, c: nat)
    requires SchedOk(s, |res|) && c < |res|
  {
    res[c] && s.status[c] == P_READY
  }

  /** A waiting process, to be considered on behalf of p. */
  predicate Waiting(s: Sched, res: seq<bool>, p: nat, c: nat)
    requires SchedOk(s, |res|) && c < |res| && p < |res|
  {
    res[c] && s.status[c] > P_READY && s.status[p] <= P_FORKING
  }

  function Waited(s: Sched, c: nat): Word
    requires c < |s.since|
  {
    (s.waitno - s.since[c]) % 65536
  }

  /** The last ready one, and the last of those that have waited longest, among the first i looked at; or -1. */
  function LastReady(s: Sched, res: seq<bool>, i: nat): (r: int)
    requires SchedOk(s, |res|) && i <= |res|
    ensures -1 <= r < |res| && (r >= 0 ==> Ready(s, res, r))
    ensures r == -1 ==> forall j :: 0 <= j < i ==> !Ready(s, res, Nth(s, |res|, j))
  {
    if i == 0 then -1
    else var c := Nth(s, |res|, i - 1);
      if Ready(s, res, c) then c else LastReady(s, res, i - 1)
  }

  function Longest(s: Sched, res: seq<bool>, p: nat, i: nat): (r: int)
    requires SchedOk(s, |res|) && p < |res| && i <= |res|
    ensures -1 <= r < |res| && (r >= 0 ==> Waiting(s, res, p, r))
    ensures forall j :: 0 <= j < i && Waiting(s, res, p, Nth(s, |res|, j)) ==>
      r >= 0 && Waited(s, Nth(s, |res|, j)) <= Waited(s, r)
  {
    if i == 0 then -1
    else
      var c, f := Nth(s, |res|, i - 1), Longest(s, res, p, i - 1);
      if Waiting(s, res, p, c) && (f == -1 || Waited(s, c) >= Waited(s, f)) then c else f
  }

  function Victim(s: Sched, res: seq<bool>, p: nat): int
    requires SchedOk(s, |res|) && p < |res|
  {
    var f := Longest(s, res, p, |res|);
    if f != -1 then f else LastReady(s, res, |res|)
  }

  predicate Candidate(s: Sched, res: seq<bool>, p: nat, c: nat)
    requires SchedOk(s, |res|) && c < |res| && p < |res|
  {
    Ready(s, res, c) || Waiting(s, res, p, c)
  }

  /** Every process is looked at. */
  lemma Seen(s: Sched, n: nat, c: nat) returns (j: nat)
    requires SchedOk(s, n) && c < n
    ensures j < n && Nth(s, n, j) == c
  {
    if c >= s.nextp {
      j := c - s.nextp;
      assert c % n == c by { Small(c, n); }
    } else {
      j := c + n - s.nextp;
      assert (c + n) % n == c by { Small(c, n); }
    }
  }

  lemma Small(c: nat, n: nat)
    requires c < n
    ensures c % n == c && (c + n) % n == c
  {
  }

  /** Somebody is found if and only if there is a candidate; a waiting process goes before a ready one, and the
      one that has waited longest goes first. */
  lemma VictimIs(s: Sched, res: seq<bool>, p: nat)
    requires SchedOk(s, |res|) && p < |res|
    ensures
      var v := Victim(s, res, p);
      && -1 <= v < |res|
      && (v == -1 <==> forall c :: 0 <= c < |res| ==> !Candidate(s, res, p, c))
      && (v >= 0 ==> Candidate(s, res, p, v))
      && (forall c :: 0 <= c < |res| && Waiting(s, res, p, c) ==> v >= 0 && Waiting(s, res, p, v) && Waited(s, c) <= Waited(s, v))
  {
    hide Longest, LastReady, Nth;
    var v, f, r := Victim(s, res, p), Longest(s, res, p, |res|), LastReady(s, res, |res|);
    forall c | 0 <= c < |res|
      ensures Candidate(s, res, p, c) ==> v >= 0
      ensures Waiting(s, res, p, c) ==> v >= 0 && Waiting(s, res, p, v) && Waited(s, c) <= Waited(s, v)
    {
      var j := Seen(s, |res|, c);
    }
    assert v >= 0 ==> Candidate(s, res, p, v);
  }

  lemma NextNth(s: Sched, n: nat, i: nat)
    requires SchedOk(s, n) && i < n
    ensures Nth(s, n, 0) == s.nextp
    ensures Nth(s, n, i + 1) == if Nth(s, n, i) + 1 == n then 0 else Nth(s, n, i) + 1
    ensures Nth(s, n, i + 1) == s.nextp <==> i + 1 == n
  {
    Around(s.nextp, n, i);
    Around(s.nextp, n, i + 1);
    Small(s.nextp, n);
  }

  lemma Around(c: nat, n: nat, i: nat)
    requires c < n && i <= n
    ensures (c + i) % n == if c + i < n then c + i else c + i - n
  {
    if c + i < n {
      Small(c + i, n);
    } else {
      Small(c + i - n, n);
    }
  }

  // ------------------------------------------------------------------ making room

  /** Who is in memory. */
  function Flags(ptab: seq<Proc>): (res: seq<bool>)
    ensures |res| == |ptab| && forall i :: 0 <= i < |ptab| ==> res[i] == Resident(ptab[i])
  {
    seq(|ptab|, i requires 0 <= i < |ptab| => Resident(ptab[i]))
  }

  function Pages(need: map<nat, nat>, c: nat): nat {
    if c in need then need[c] else 0
  }

  /** Swapping out victim after victim gets wanted pages together, with free pages and spare slots to begin with. */
  function Enough(s: Sched, res: seq<bool>, need: map<nat, nat>, p: nat, free: nat, spare: nat, wanted: nat): bool
    requires SchedOk(s, |res|) && p < |res|
    decreases spare
  {
    || wanted <= free
    || (spare > 0 && Victim(s, res, p) >= 0 &&
        var v := Victim(s, res, p);
        VictimIs(s, res, p);
        Enough(s, res[v := false], need, p, free + Pages(need, v), spare - 1, wanted))
  }

  /** The candidates among the first i processes, and their pages. */
  function Count(s: Sched, res: seq<bool>, p: nat, i: nat): nat
    requires SchedOk(s, |res|) && p < |res| && i <= |res|
  {
    if i == 0 then 0 else Count(s, res, p, i - 1) + if Candidate(s, res, p, i - 1) then 1 else 0
  }

  function Total(s: Sched, res: seq<bool>, need: map<nat, nat>, p: nat, i: nat): nat
    requires SchedOk(s, |res|) && p < |res| && i <= |res|
  {
    if i == 0 then 0 else Total(s, res, need, p, i - 1) + if Candidate(s, res, p, i - 1) then Pages(need, i - 1) else 0
  }

  lemma {:induction false} OneLess(s: Sched, res: seq<bool>, need: map<nat, nat>, p: nat, v: nat, i: nat)
    requires SchedOk(s, |res|) && p < |res| && i <= |res| && v < |res| && Candidate(s, res, p, v)
    ensures Count(s, res[v := false], p, i) == Count(s, res, p, i) - if v < i then 1 else 0
    ensures Total(s, res[v := false], need, p, i) == Total(s, res, need, p, i) - if v < i then Pages(need, v) else 0
    decreases i
  {
    if i > 0 {
      OneLess(s, res, need, p, v, i - 1);
      assert i - 1 != v ==> (Candidate(s, res[v := false], p, i - 1) <==> Candidate(s, res, p, i - 1));
    }
  }

  lemma {:induction false} NoneLeft(s: Sched, res: seq<bool>, need: map<nat, nat>, p: nat, i: nat)
    requires SchedOk(s, |res|) && p < |res| && i <= |res|
    ensures (forall c :: 0 <= c < i ==> !Candidate(s, res, p, c)) <==> Count(s, res, p, i) == 0
    ensures Count(s, res, p, i) == 0 ==> Total(s, res, need, p, i) == 0
    decreases i
  {
    if i > 0 {
      NoneLeft(s, res, need, p, i - 1);
    }
  }

  /** What no choice of victims can change: with a slot for every candidate there is room exactly when the free
      pages and all their pages together suffice; in any case they must, and one page for each slot that can be
      used is enough. */
  lemma {:induction false} EnoughExactly(s: Sched, res: seq<bool>, need: map<nat, nat>, p: nat, free: nat, spare: nat, wanted: nat)
    requires SchedOk(s, |res|) && p < |res|
    ensures Enough(s, res, need, p, free, spare, wanted) ==> wanted <= free + Total(s, res, need, p, |res|)
    ensures Count(s, res, p, |res|) <= spare ==>
      (Enough(s, res, need, p, free, spare, wanted) <==> wanted <= free + Total(s, res, need, p, |res|))
    ensures
      (forall c :: 0 <= c < |res| && res[c] ==> Pages(need, c) >= 1)
      && wanted <= free + spare && wanted <= free + Count(s, res, p, |res|)
      ==> Enough(s, res, need, p, free, spare, wanted)
    decreases spare
  {
    hide Victim, Candidate;
    var v := Victim(s, res, p);
    VictimIs(s, res, p);
    NoneLeft(s, res, need, p, |res|);
    if v >= 0 && spare > 0 {
      OneLess(s, res, need, p, v, |res|);
      EnoughExactly(s, res[v := false], need, p, free + Pages(need, v), spare - 1, wanted);
      CandidateIs(s, res, p, v);
    }
  }

  /** With the pages at hand there is room; without them, and without a slot or a candidate, there is none. */
  lemma EnoughAtOnce(s: Sched, res: seq<bool>, need: map<nat, nat>, p: nat, free: nat, spare: nat, wanted: nat)
    requires SchedOk(s, |res|) && p < |res|
    ensures wanted <= free ==> Enough(s, res, need, p, free, spare, wanted)
    ensures wanted > free && (spare == 0 || forall c :: 0 <= c < |res| ==> !res[c]) ==> !Enough(s, res, need, p, free, spare, wanted)
  {
    VictimIs(s, res, p);
  }

  lemma VictimFrom(s: Sched, res: seq<bool>, p: nat)
    requires SchedOk(s, |res|) && p < |res|
    ensures var f := Longest(s, res, p, |res|); Victim(s, res, p) == if f != -1 then f else LastReady(s, res, |res|)
  {
  }

  lemma CandidateIs(s: Sched, res: seq<bool>, p: nat, c: nat)
    requires SchedOk(s, |res|) && p < |res| && c < |res| && Candidate(s, res, p, c)
    ensures res[c]
  {
  }

  /** One round of the loop that makes room. */
  lemma EnoughStep(s: Sched, res: seq<bool>, need: map<nat, nat>, p: nat, free: nat, spare: nat, wanted: nat)
    requires SchedOk(s, |res|) && p < |res|
    ensures var v := Victim(s, res, p);
      Enough(s, res, need, p, free, spare, wanted) <==>
        wanted <= free
        || (spare > 0 && 0 <= v < |res| && Enough(s, res[v := false], need, p, free + Pages(need, v), spare - 1, wanted))
  {
    VictimIs(s, res, p);
  }
}
