/** The block buffer cache (Kernel/devio.c): a small pool with least recently used replacement and delayed
    writing, which behaves as the flat disk it stands in front of. */
module BufferCache {
  import opened Blocks

  const NO_DEVICE: Word := 65535

  /** A block of a device. */
  datatype Key = Key(dev: Word, blk: Word)

  /** bf_busy: 0, 1 and 2. */
  datatype Busy = Free | Taken | Superblock

  datatype Buf = Buf(key: Key, dirty: bool, busy: Busy, time: Word, data: Block)

  function Age(clock: Word, time: Word): Word {
    (clock - time) % 65536
  }

  /** What bread or tmpbuf was called for. */
  datatype Want = Wanted(k: Key) | Anything

  /** One call of bread or tmpbuf: the buffer it took, what for, and the pool as it was. */
  datatype Use = Use(bp: nat, want: Want, before: seq<Buf>)

  /** The number of the last call that took buffer b, counted from 1, or 0. */
  function LastUse(log: seq<Use>, b: nat): (n: nat)
    ensures n <= |log|
  {
    if log == [] then 0 else if log[|log| - 1].bp == b then |log| else LastUse(log[..|log| - 1], b)
  }

  /** The clock counts the calls, and a buffer is stamped with its last one. */
  ghost predicate Stamped(bufs: seq<Buf>, clock: Word, log: seq<Use>) {
    clock == |log| % 65536 && forall i :: 0 <= i < |bufs| ==> bufs[i].time == LastUse(log, i) % 65536
  }

  /** No free buffer has been left alone for 65536 calls. */
  ghost predicate Recent(bufs: seq<Buf>, log: seq<Use>) {
    forall i :: 0 <= i < |bufs| && bufs[i].busy == Free ==> |log| - LastUse(log, i) < 65536
  }

  /** Of the free buffers b is the one used least recently. */
  ghost predicate LeastRecent(bufs: seq<Buf>, log: seq<Use>, b: nat) {
    forall i :: 0 <= i < |bufs| && bufs[i].busy == Free ==> LastUse(log, b) <= LastUse(log, i)
  }

  /** Call t took the buffer that held the block, or else a free one: the one used least recently. */
  ghost predicate UseOk(log: seq<Use>, t: nat)
    requires t < |log|
  {
    var u := log[t];
    && u.bp < |u.before|
    && if u.want.Wanted? && Holder(u.before, u.want.k) then u.before[u.bp].key == u.want.k
       else u.before[u.bp].busy == Free && (Recent(u.before, log[..t]) ==> LeastRecent(u.before, log[..t], u.bp))
  }

  lemma AgeIs(n: nat, last: nat)
    requires last <= n
    ensures Age(n % 65536, last % 65536) == (n - last) % 65536
    ensures n - last < 65536 ==> Age(n % 65536, last % 65536) == n - last
  {
    assert n == 65536 * (n / 65536) + n % 65536 && last == 65536 * (last / 65536) + last % 65536;
    var d := n / 65536 - last / 65536;
    assert n - last == 65536 * d + (n % 65536 - last % 65536);
  }

  /** As long as every free buffer is recent, the one of the greatest age is the one used least recently. */
  lemma OldestIs(bufs: seq<Buf>, clock: Word, log: seq<Use>, b: nat)
    requires Stamped(bufs, clock, log) && b < |bufs| && bufs[b].busy == Free
    requires forall i :: 0 <= i < |bufs| && bufs[i].busy == Free ==> Age(clock, bufs[i].time) <= Age(clock, bufs[b].time)
    ensures Recent(bufs, log) ==> LeastRecent(bufs, log, b)
    ensures (forall i :: 0 <= i < |bufs| && bufs[i].busy == Free ==> bufs[i].time <= clock) ==>
      forall i :: 0 <= i < |bufs| && bufs[i].busy == Free ==> bufs[b].time <= bufs[i].time
  {
    hide LastUse;
    if Recent(bufs, log) {
      hide Age;
      AgeIs(|log|, LastUse(log, b));
      forall i | 0 <= i < |bufs| && bufs[i].busy == Free ensures LastUse(log, b) <= LastUse(log, i) {
        AgeIs(|log|, LastUse(log, i));
      }
    }
  }

  /** A buffer left alone for 65536 calls looks like the one used last: the clock says so, whatever else is free. */
  lemma AgeWraps(n: nat, last: nat)
    requires last <= n
    ensures (Age(n % 65536, last % 65536) == 0 <==> (n - last) % 65536 == 0)
    ensures Age(65536 % 65536, 0) == 0 && Age(65536 % 65536, 65535) == 1
  {
    AgeIs(n, last);
  }

  lemma StampMore(bufs: seq<Buf>, clock: Word, log: seq<Use>, bufs': seq<Buf>, u: Use)
    requires Stamped(bufs, clock, log) && |bufs'| == |bufs| && u.bp < |bufs|
    requires forall i :: 0 <= i < |bufs| ==> bufs'[i].time == if i == u.bp then (clock + 1) % 65536 else bufs[i].time
    ensures Stamped(bufs', (clock + 1) % 65536, log + [u])
  {
    assert (log + [u])[..|log|] == log;
  }

  /** The buffer holds a block of some device. */
  predicate Named(b: Buf) {
    b.key.dev != NO_DEVICE
  }

  /** What a buffer may look like, given the devices and what was last released for each block.  A buffer
      nobody holds has the released contents, and the device has them too unless the buffer is dirty. */
  ghost predicate BufOk(b: Buf, phys: map<Key, Block>, released: map<Key, Block>) {
    && (Named(b) ==> b.key in phys && b.key in released)
    && (!Named(b) ==> !b.dirty)
    && (Named(b) && b.busy == Free ==> b.data == released[b.key])
    && (Named(b) && !b.dirty ==> phys[b.key] == released[b.key])
  }

  ghost predicate Coherent(bufs: seq<Buf>, phys: map<Key, Block>, released: map<Key, Block>) {
    && phys.Keys == released.Keys
    && (forall i :: 0 <= i < |bufs| ==> BufOk(bufs[i], phys, released))
    && (forall i, j :: 0 <= i < j < |bufs| && Named(bufs[i]) ==> bufs[i].key != bufs[j].key)
    && (forall k :: k in phys && phys[k] != released[k] ==> Holder(bufs, k))
  }

  /** Some buffer holds k. */
  ghost predicate Holder(bufs: seq<Buf>, k: Key) {
    exists i :: 0 <= i < |bufs| && bufs[i].key == k && Named(bufs[i])
  }

  class Cache {
    const pool: array<Buf>
    var bufclock: Word
    /** The devices. */
    var phys: map<Key, Block>
    /** The flat disk: for each block, the contents last released. */
    ghost var released: map<Key, Block>
    /** The calls of bread and tmpbuf so far. */
    ghost var log: seq<Use>

    ghost predicate Valid()
      reads this, pool
    {
      Coherent(pool[..], phys, released) && Stamped(pool[..], bufclock, log)
    }

    /** A cold pool in front of the devices. */
    constructor (nbufs: nat, devices: map<Key, Block>)
      ensures Valid() && fresh(pool) && pool.Length == nbufs
      ensures phys == devices && released == devices && log == []
      ensures forall i :: 0 <= i < nbufs ==> !Named(pool[i]) && pool[i].busy == Free
    {
      pool := new Buf[nbufs](_ => Buf(Key(NO_DEVICE, 0), false, Free, 0, ZeroBlock()));
      bufclock, phys, released, log := 0, devices, devices, [];
    }

    /** bfind */
    method BFind(k: Key) returns (i: int)
      requires k.dev != NO_DEVICE
      ensures -1 <= i < pool.Length
      ensures i >= 0 ==> pool[i].key == k
      ensures i == -1 ==> forall j :: 0 <= j < pool.Length ==> pool[j].key != k
    {
      i := 0;
      while i < pool.Length
        invariant 0 <= i <= pool.Length
        invariant forall j :: 0 <= j < i ==> pool[j].key != k
      {
        if pool[i].key == k {
          return;
        }
        i := i + 1;
      }
      i := -1;
    }

    /** freebuf: the buffer unused for longest that nobody holds, written back if it was dirty. */
    method FreeBuf() returns (oldest: nat)
      requires Valid()
      requires exists i :: 0 <= i < pool.Length && pool[i].busy == Free
      modifies this`phys, pool
      ensures Valid()
      ensures oldest < pool.Length && pool[oldest].busy == Free
      ensures forall i :: 0 <= i < pool.Length && pool[i].busy == Free ==>
        Age(bufclock, pool[i].time) <= Age(bufclock, pool[oldest].time)
      ensures (forall i :: 0 <= i < pool.Length && pool[i].busy == Free ==> pool[i].time <= bufclock) ==>
        forall i :: 0 <= i < pool.Length && pool[i].busy == Free ==> pool[oldest].time <= pool[i].time
      ensures Recent(old(pool[..]), log) ==> LeastRecent(old(pool[..]), log, oldest)
      ensures pool[..] == old(pool[..])[oldest := old(pool[..])[oldest].(dirty := false)]
      ensures phys.Keys == old(phys.Keys)
      ensures forall k :: k in phys && k != pool[oldest].key ==> phys[k] == old(phys)[k]
      ensures Named(pool[oldest]) ==> phys[pool[oldest].key] == released[pool[oldest].key]
    {
      hide LastUse, Recent, LeastRecent;
      var found, oldtime, bp := -1, 0, 0;
      while bp < pool.Length
        invariant 0 <= bp <= pool.Length && -1 <= found < bp
        invariant found >= 0 ==> pool[found].busy == Free && oldtime == Age(bufclock, pool[found].time)
        invariant found == -1 ==> oldtime == 0 && forall i :: 0 <= i < bp ==> pool[i].busy != Free
        invariant forall i :: 0 <= i < bp && pool[i].busy == Free ==> Age(bufclock, pool[i].time) <= oldtime
      {
        if Age(bufclock, pool[bp].time) >= oldtime && pool[bp].busy == Free {
          found, oldtime := bp, Age(bufclock, pool[bp].time);
        }
        bp := bp + 1;
      }
      oldest := found;
      ghost var bufs := pool[..];
      OldestIs(bufs, bufclock, log, oldest);
      if pool[oldest].dirty {
        WriteBack(bufs, phys, released, oldest);
        phys := phys[pool[oldest].key := pool[oldest].data];
        pool[oldest] := pool[oldest].(dirty := false);
        assert pool[..] == bufs[oldest := bufs[oldest].(dirty := false)];
      } else {
        assert pool[..] == bufs[oldest := bufs[oldest].(dirty := false)];
      }
    }

    /** The miss of bread: reuse the oldest free buffer, reading the block unless it will be rewritten. */
    method Load(k: Key, rewrite: bool) returns (bp: nat)
      requires Valid() && k.dev != NO_DEVICE && k in phys
      requires forall i :: 0 <= i < pool.Length ==> pool[i].key != k
      requires exists i :: 0 <= i < pool.Length && pool[i].busy == Free
      modifies this`phys, pool
      ensures Valid() && phys.Keys == old(phys.Keys)
      ensures bp < pool.Length && old(pool[bp].busy) == Free
      ensures pool[bp].key == k && pool[bp].busy == Taken && !pool[bp].dirty
      ensures !rewrite ==> pool[bp].data == released[k]
      ensures forall i :: 0 <= i < pool.Length && i != bp ==> pool[i] == old(pool[i])
      ensures forall i :: 0 <= i < pool.Length && old(pool[i].busy) == Free ==>
        Age(bufclock, old(pool[i].time)) <= Age(bufclock, old(pool[bp].time))
      ensures pool[bp].time == old(pool[bp].time) && (Recent(old(pool[..]), log) ==> LeastRecent(old(pool[..]), log, bp))
    {
      hide Coherent, Holder, LastUse, Recent, LeastRecent;
      bp := FreeBuf();
      ghost var bufs := pool[..];
      // a buffer about to be rewritten keeps its stale bytes
      var data := if rewrite then pool[bp].data else phys[k];
      Rename(bufs, phys, released, bp, k, pool[bp].time, data);
      pool[bp] := Buf(k, false, Taken, pool[bp].time, data);
      assert pool[..] == bufs[bp := pool[bp]];
    }

    /** bread: take a buffer for block k.  Without rewrite it holds what was last released for k. */
    method BRead(k: Key, rewrite: bool) returns (bp: nat)
      requires Valid() && k.dev != NO_DEVICE && k in phys
      requires forall i :: 0 <= i < pool.Length && pool[i].key == k ==> pool[i].busy != Taken
      requires Holder(pool[..], k) || exists i :: 0 <= i < pool.Length && pool[i].busy == Free
      modifies this`phys, this`bufclock, this`log, pool
      ensures Valid() && phys.Keys == old(phys.Keys)
      ensures log == old(log) + [Use(bp, Wanted(k), old(pool[..]))] && UseOk(log, |old(log)|)
      ensures bp < pool.Length && pool[bp].key == k && pool[bp].time == bufclock
      ensures pool[bp].busy == if old(pool[bp].key) == k && old(pool[bp].busy) == Superblock then Superblock else Taken
      ensures !rewrite && pool[bp].busy == Taken ==> pool[bp].data == released[k]
      ensures old(Holder(pool[..], k)) ==> old(pool[bp].key) == k && phys == old(phys)
      ensures old(pool[bp].key) == k ==> pool[bp].data == old(pool[bp].data) && pool[bp].dirty == old(pool[bp].dirty)
      ensures forall i :: 0 <= i < pool.Length && i != bp ==> pool[i] == old(pool[i])
      ensures old(pool[bp].key) != k ==> old(pool[bp].busy) == Free && !pool[bp].dirty
      ensures old(pool[bp].key) != k ==> (forall i :: 0 <= i < pool.Length && old(pool[i].busy) == Free ==>
        Age(old(bufclock), old(pool[i].time)) <= Age(old(bufclock), old(pool[bp].time)))
    {
      hide Coherent, Holder, Age, LastUse, Recent, LeastRecent, Stamped;
      ghost var bufs, clock := pool[..], bufclock;
      ghost var times: seq<Use> := log;
      var found := BFind(k);
      HolderIs(bufs, k, found);
      if found >= 0 {
        bp := found;
        Hit(bufs, phys, released, bp);
        if pool[bp].busy == Free {
          pool[bp] := pool[bp].(busy := Taken);
        }
        // a pinned superblock buffer stays pinned
        assert pool[..] == bufs[bp := pool[bp]];
      } else {
        bp := Load(k, rewrite);
      }
      ghost var taken := pool[..];
      bufclock := (bufclock + 1) % 65536;
      pool[bp] := pool[bp].(time := bufclock);
      assert pool[..] == taken[bp := taken[bp].(time := bufclock)];
      Restamp(taken, phys, released, bp, bufclock);
      log := log + [Use(bp, Wanted(k), bufs)];
      StampMore(bufs, clock, times, pool[..], Use(bp, Wanted(k), bufs));
      assert log[..|times|] == times;
    }

    /** The holder of a buffer changes its data. */
    method Modify(bp: nat, data: Block)
      requires Valid() && bp < pool.Length && pool[bp].busy != Free
      modifies pool
      ensures Valid() && pool[..] == old(pool[..])[bp := old(pool[bp]).(data := data)]
    {
      hide Holder;
      ghost var bufs := pool[..];
      pool[bp] := pool[bp].(data := data);
      assert pool[..] == bufs[bp := bufs[bp].(data := data)];
      Scribble(bufs, phys, released, bp, data);
    }

    /** bfree: give a buffer back.  dirty is 0 for unchanged, 1 for write later, 2 for write now.  From
        here on its data is the block's contents. */
    method BFree(bp: nat, dirty: nat)
      requires Valid() && bp < pool.Length && pool[bp].busy != Free && dirty <= 2
      requires dirty > 0 ==> Named(pool[bp])
      requires dirty == 0 && Named(pool[bp]) && !pool[bp].dirty ==> pool[bp].data == released[pool[bp].key]
      modifies this`phys, this`released, pool
      ensures Valid()
      ensures released == if Named(old(pool[bp])) then old(released)[old(pool[bp]).key := old(pool[bp]).data] else old(released)
      ensures pool[bp] == old(pool[bp]).(dirty := dirty == 1 || (dirty == 0 && old(pool[bp]).dirty),
                                         busy := if old(pool[bp]).busy == Taken then Free else old(pool[bp]).busy)
      ensures forall i :: 0 <= i < pool.Length && i != bp ==> pool[i] == old(pool[i])
      ensures phys == if dirty == 2 then old(phys)[old(pool[bp]).key := old(pool[bp]).data] else old(phys)
    {
      hide Holder;
      ghost var b, bufs, phys0, released0 := pool[bp], pool[..], phys, released;
      if dirty > 0 {
        pool[bp] := pool[bp].(dirty := true);
      }
      if pool[bp].busy == Taken {
        pool[bp] := pool[bp].(busy := Free);
      }
      if dirty > 1 {
        phys := phys[pool[bp].key := pool[bp].data];
        pool[bp] := pool[bp].(dirty := false);
      }
      if Named(b) {
        released := released[b.key := b.data];
      }
      assert pool[..] == bufs[bp := pool[bp]];
      Released(bufs, phys0, released0, bp, dirty);
    }

    /** tmpbuf: a scratch buffer that belongs to no device. */
    method TmpBuf() returns (bp: nat)
      requires Valid()
      requires exists i :: 0 <= i < pool.Length && pool[i].busy == Free
      modifies this`phys, this`bufclock, this`log, pool
      ensures Valid()
      ensures log == old(log) + [Use(bp, Anything, old(pool[..]))] && UseOk(log, |old(log)|)
      ensures bp < pool.Length && !Named(pool[bp]) && pool[bp].busy == Taken && old(pool[bp].busy) == Free
      ensures forall i :: 0 <= i < pool.Length && i != bp ==> pool[i] == old(pool[i])
      ensures phys.Keys == old(phys.Keys)
    {
      hide Holder, LastUse, Recent, LeastRecent, Stamped;
      ghost var before, clock := pool[..], bufclock;
      bp := FreeBuf();
      ghost var bufs := pool[..];
      bufclock := (bufclock + 1) % 65536;
      Scratch(bufs, phys, released, bp, bufclock);
      pool[bp] := pool[bp].(key := Key(NO_DEVICE, pool[bp].key.blk), busy := Taken, time := bufclock);
      assert pool[..] == bufs[bp := pool[bp]];
      ghost var times := log;
      log := log + [Use(bp, Anything, before)];
      StampMore(before, clock, times, pool[..], Use(bp, Anything, before));
      assert log[..|times|] == times;
    }

    /** bdput on one buffer. */
    method BdPut(bp: nat)
      requires Valid() && bp < pool.Length && Named(pool[bp]) && (pool[bp].dirty || pool[bp].busy == Free)
      modifies this`phys, pool
      ensures Valid()
      ensures phys == old(phys)[pool[bp].key := pool[bp].data]
      ensures pool[..] == old(pool[..])[bp := old(pool[bp]).(dirty := old(pool[bp]).dirty && old(pool[bp]).busy != Free)]
    {
      hide Holder;
      ghost var bufs, phys0 := pool[..], phys;
      phys := phys[pool[bp].key := pool[bp].data];
      if pool[bp].busy == Free {
        pool[bp] := pool[bp].(dirty := false);
      }
      assert pool[..] == bufs[bp := pool[bp]];
      PutBack(bufs, phys0, released, bp);
    }

    /** bufsync: write every dirty buffer.  What nobody holds is then on the devices as released. */
    method BufSync()
      requires Valid()
      modifies this`phys, pool
      ensures Valid()
      ensures forall i :: 0 <= i < pool.Length ==>
        pool[i] == old(pool[i]).(dirty := old(pool[i]).dirty && old(pool[i]).busy != Free)
      ensures phys.Keys == old(phys.Keys)
      ensures forall k :: k in phys && phys[k] != released[k] ==>
        exists i :: 0 <= i < pool.Length && pool[i].key == k && pool[i].busy != Free && pool[i].dirty
      ensures (forall i :: 0 <= i < pool.Length && Named(pool[i]) ==> pool[i].busy == Free) ==> phys == released
    {
      var bp := 0;
      while bp < pool.Length
        invariant 0 <= bp <= pool.Length && Valid() && phys.Keys == old(phys.Keys)
        invariant forall i :: 0 <= i < bp ==>
          pool[i] == old(pool[i]).(dirty := old(pool[i]).dirty && old(pool[i]).busy != Free)
        invariant forall i :: bp <= i < pool.Length ==> pool[i] == old(pool[i])
      {
        if Named(pool[bp]) && pool[bp].dirty {
          BdPut(bp);
        } else {
          assert BufOk(pool[bp], phys, released);
        }
        bp := bp + 1;
      }
      forall k | k in phys && phys[k] != released[k]
        ensures exists i :: 0 <= i < pool.Length && pool[i].key == k && pool[i].busy != Free && pool[i].dirty
      {
        assert Holder(pool[..], k);
        var i :| 0 <= i < |pool[..]| && pool[..][i].key == k && Named(pool[..][i]);
        assert BufOk(pool[i], phys, released);
      }
    }

    /** bdrop: forget a device, none of whose buffers is held. */
    method BDrop(dev: Word)
      requires Valid() && dev != NO_DEVICE
      requires forall i :: 0 <= i < pool.Length && pool[i].key.dev == dev ==> pool[i].busy == Free
      modifies this`phys, pool
      ensures Valid() && phys.Keys == old(phys.Keys)
      ensures forall i :: 0 <= i < pool.Length ==> pool[i].key.dev != dev
      ensures forall i :: 0 <= i < pool.Length && old(pool[i]).key.dev != dev ==> pool[i] == old(pool[i])
      ensures forall i :: 0 <= i < pool.Length && old(pool[i]).key.dev == dev ==> !Named(pool[i]) && pool[i].busy == Free
      ensures forall k :: k in phys && k.dev == dev ==> phys[k] == released[k]
    {
      var bp := 0;
      while bp < pool.Length
        invariant 0 <= bp <= pool.Length && Valid() && phys.Keys == old(phys.Keys)
        invariant forall i :: 0 <= i < bp ==> pool[i].key.dev != dev
        invariant forall i :: 0 <= i < bp && old(pool[i]).key.dev != dev ==> pool[i] == old(pool[i])
        invariant forall i :: 0 <= i < bp && old(pool[i]).key.dev == dev ==> !Named(pool[i]) && pool[i].busy == Free
        invariant forall i :: bp <= i < pool.Length ==> pool[i] == old(pool[i])
      {
        if pool[bp].key.dev == dev {
          BdPut(bp);
          ghost var bufs := pool[..];
          Forget(bufs, phys, released, bp);
          pool[bp] := pool[bp].(key := Key(NO_DEVICE, pool[bp].key.blk));
          assert pool[..] == bufs[bp := pool[bp]];
        }
        bp := bp + 1;
      }
    }
  }

  /** Writing a buffer nobody holds back to its device. */
  lemma WriteBack(bufs: seq<Buf>, phys: map<Key, Block>, released: map<Key, Block>, i: nat)
    requires Coherent(bufs, phys, released) && i < |bufs| && bufs[i].busy == Free && bufs[i].dirty
    ensures Named(bufs[i]) && bufs[i].key in phys
    ensures Coherent(bufs[i := bufs[i].(dirty := false)], phys[bufs[i].key := bufs[i].data], released)
  {
    var bufs' := bufs[i := bufs[i].(dirty := false)];
    forall k | Holder(bufs, k)
      ensures Holder(bufs', k)
    {
      var j :| 0 <= j < |bufs| && bufs[j].key == k && Named(bufs[j]);
      assert bufs'[j].key == k;
    }
  }

  /** bfind answers whether a block is in the pool. */
  lemma HolderIs(bufs: seq<Buf>, k: Key, i: int)
    requires -1 <= i < |bufs| && k.dev != NO_DEVICE
    requires if i >= 0 then bufs[i].key == k else forall j :: 0 <= j < |bufs| ==> bufs[j].key != k
    ensures Holder(bufs, k) <==> i >= 0
  {
  }

  /** A change of one buffer that keeps its key keeps every holder. */
  lemma SameHolders(bufs: seq<Buf>, i: nat, b: Buf, k: Key)
    requires i < |bufs| && b.key == bufs[i].key && Holder(bufs, k)
    ensures Holder(bufs[i := b], k)
  {
    var j :| 0 <= j < |bufs| && bufs[j].key == k && Named(bufs[j]);
    assert bufs[i := b][j].key == k;
  }

  /** A buffer found in the pool can be taken, and if nobody held it, it has the released contents. */
  lemma Hit(bufs: seq<Buf>, phys: map<Key, Block>, released: map<Key, Block>, i: nat)
    requires Coherent(bufs, phys, released) && i < |bufs| && Named(bufs[i])
    ensures bufs[i].key in released && (bufs[i].busy == Free ==> bufs[i].data == released[bufs[i].key])
    ensures Coherent(bufs[i := bufs[i].(busy := if bufs[i].busy == Free then Taken else bufs[i].busy)], phys, released)
  {
    var b := bufs[i].(busy := if bufs[i].busy == Free then Taken else bufs[i].busy);
    assert BufOk(bufs[i], phys, released);
    forall k | Holder(bufs, k) ensures Holder(bufs[i := b], k) { SameHolders(bufs, i, b, k); }
  }

  lemma Restamp(bufs: seq<Buf>, phys: map<Key, Block>, released: map<Key, Block>, i: nat, time: Word)
    requires Coherent(bufs, phys, released) && i < |bufs|
    ensures Coherent(bufs[i := bufs[i].(time := time)], phys, released)
  {
    var b := bufs[i].(time := time);
    forall k | Holder(bufs, k) ensures Holder(bufs[i := b], k) { SameHolders(bufs, i, b, k); }
  }

  lemma Scribble(bufs: seq<Buf>, phys: map<Key, Block>, released: map<Key, Block>, i: nat, data: Block)
    requires Coherent(bufs, phys, released) && i < |bufs| && bufs[i].busy != Free
    ensures Coherent(bufs[i := bufs[i].(data := data)], phys, released)
  {
    var b := bufs[i].(data := data);
    forall k | Holder(bufs, k) ensures Holder(bufs[i := b], k) { SameHolders(bufs, i, b, k); }
  }

  /** A clean buffer nobody holds can be given to another block that no buffer holds. */
  lemma Rename(bufs: seq<Buf>, phys: map<Key, Block>, released: map<Key, Block>, i: nat, k: Key, time: Word, data: Block)
    requires Coherent(bufs, phys, released) && i < |bufs| && !bufs[i].dirty
    requires k in phys && k.dev != NO_DEVICE && forall j :: 0 <= j < |bufs| ==> bufs[j].key != k
    ensures phys[k] == released[k]
    ensures Coherent(bufs[i := Buf(k, false, Taken, time, data)], phys, released)
  {
    assert !Holder(bufs, k);
    Unname(bufs, phys, released, i, Buf(k, false, Taken, time, data));
  }

  /** Other blocks keep their holders when a buffer changes its key. */
  lemma Unname(bufs: seq<Buf>, phys: map<Key, Block>, released: map<Key, Block>, i: nat, b: Buf)
    requires Coherent(bufs, phys, released) && i < |bufs| && !bufs[i].dirty
    ensures forall k :: k in phys && phys[k] != released[k] ==> Holder(bufs[i := b], k)
  {
    forall k | k in phys && phys[k] != released[k]
      ensures Holder(bufs[i := b], k)
    {
      assert Holder(bufs, k);
      var j :| 0 <= j < |bufs| && bufs[j].key == k && Named(bufs[j]);
      assert BufOk(bufs[i], phys, released);
      assert j != i;
      assert bufs[i := b][j].key == k;
    }
  }

  lemma Scratch(bufs: seq<Buf>, phys: map<Key, Block>, released: map<Key, Block>, i: nat, time: Word)
    requires Coherent(bufs, phys, released) && i < |bufs| && !bufs[i].dirty
    ensures Coherent(bufs[i := bufs[i].(key := Key(NO_DEVICE, bufs[i].key.blk), busy := Taken, time := time)], phys, released)
  {
    Unname(bufs, phys, released, i, bufs[i].(key := Key(NO_DEVICE, bufs[i].key.blk), busy := Taken, time := time));
  }

  lemma Forget(bufs: seq<Buf>, phys: map<Key, Block>, released: map<Key, Block>, i: nat)
    requires Coherent(bufs, phys, released) && i < |bufs| && !bufs[i].dirty
    ensures Coherent(bufs[i := bufs[i].(key := Key(NO_DEVICE, bufs[i].key.blk))], phys, released)
  {
    Unname(bufs, phys, released, i, bufs[i].(key := Key(NO_DEVICE, bufs[i].key.blk)));
  }

  /** Giving a buffer back makes its data the released contents of its block. */
  lemma Released(bufs: seq<Buf>, phys: map<Key, Block>, released: map<Key, Block>, i: nat, dirty: nat)
    requires Coherent(bufs, phys, released) && i < |bufs| && bufs[i].busy != Free && dirty <= 2
    requires dirty > 0 ==> Named(bufs[i])
    requires dirty == 0 && Named(bufs[i]) && !bufs[i].dirty ==> bufs[i].data == released[bufs[i].key]
    ensures
      var b := bufs[i];
      var b' := b.(dirty := dirty == 1 || (dirty == 0 && b.dirty), busy := if b.busy == Taken then Free else b.busy);
      Coherent(bufs[i := b'], if dirty == 2 then phys[b.key := b.data] else phys,
               if Named(b) then released[b.key := b.data] else released)
  {
    var b := bufs[i];
    assert BufOk(b, phys, released);
    var b' := b.(dirty := dirty == 1 || (dirty == 0 && b.dirty), busy := if b.busy == Taken then Free else b.busy);
    forall k | Holder(bufs, k) ensures Holder(bufs[i := b'], k) { SameHolders(bufs, i, b', k); }
    assert Named(b) ==> bufs[i := b'][i].key == b.key && Holder(bufs[i := b'], b.key);
  }

  /** Writing a buffer to its device. */
  lemma PutBack(bufs: seq<Buf>, phys: map<Key, Block>, released: map<Key, Block>, i: nat)
    requires Coherent(bufs, phys, released) && i < |bufs| && Named(bufs[i]) && (bufs[i].dirty || bufs[i].busy == Free)
    ensures Coherent(bufs[i := bufs[i].(dirty := bufs[i].dirty && bufs[i].busy != Free)],
                     phys[bufs[i].key := bufs[i].data], released)
  {
    var b := bufs[i].(dirty := bufs[i].dirty && bufs[i].busy != Free);
    assert BufOk(bufs[i], phys, released);
    forall k | Holder(bufs, k) ensures Holder(bufs[i := b], k) { SameHolders(bufs, i, b, k); }
    assert bufs[i := b][i].key == bufs[i].key && Holder(bufs[i := b], bufs[i].key);
  }

  // ------------------------------------------------------------------ runs

  /** What the rest of the kernel does with the pool: take a block to read, take one to overwrite whole, change a
      held one, give one back; take, change and give back a scratch buffer; write everything out; forget a device. */
  datatype Op =
    | Get(k: Key) | Fill(k: Key, data: Block) | Set(k: Key, data: Block) | Put(k: Key, dirty: nat)
    | Tmp(id: nat, data: Block) | TmpSet(id: nat, data: Block) | TmpFree(id: nat)
    | Sync | Drop(dev: Word)

  /** A flat disk without a cache, private copies of the blocks that are held, and scratch memory. */
  datatype Flat = Flat(disk: map<Key, Block>, held: map<Key, Block>, scratch: map<nat, Block>)

  /** Blocks and scratch buffers come out of one pool of nbufs. */
  predicate Room(f: Flat, nbufs: nat) {
    |f.held| + |f.scratch| < nbufs
  }

  /** The kernel's own discipline: no block is taken twice, something is free to take, only held blocks are
      changed and given back, a changed block is given back dirty, and no held device is forgotten. */
  predicate Legal(f: Flat, op: Op, nbufs: nat) {
    match op
    case Get(k) => k in f.disk && k.dev != NO_DEVICE && k !in f.held && Room(f, nbufs)
    case Fill(k, data) => k in f.disk && k.dev != NO_DEVICE && k !in f.held && Room(f, nbufs)
    case Set(k, data) => k in f.held
    case Put(k, dirty) => k in f.held && k in f.disk && dirty <= 2 && (dirty == 0 ==> f.held[k] == f.disk[k])
    case Tmp(id, data) => id !in f.scratch && Room(f, nbufs)
    case TmpSet(id, data) => id in f.scratch
    case TmpFree(id) => id in f.scratch
    case Sync => true
    case Drop(dev) => dev != NO_DEVICE && forall k :: k in f.held ==> k.dev != dev
  }

  function Step(f: Flat, op: Op, nbufs: nat): Flat
    requires Legal(f, op, nbufs)
  {
    match op
    case Get(k) => f.(held := f.held[k := f.disk[k]])
    case Fill(k, data) => f.(held := f.held[k := data])
    case Set(k, data) => f.(held := f.held[k := data])
    case Put(k, dirty) => f.(disk := f.disk[k := f.held[k]], held := f.held - {k})
    case Tmp(id, data) => f.(scratch := f.scratch[id := data])
    case TmpSet(id, data) => f.(scratch := f.scratch[id := data])
    case TmpFree(id) => f.(scratch := f.scratch - {id})
    case Sync => f
    case Drop(dev) => f
  }

  predicate AllLegal(f: Flat, ops: seq<Op>, nbufs: nat)
    decreases ops
  {
    ops == [] || (Legal(f, ops[0], nbufs) && AllLegal(Step(f, ops[0], nbufs), ops[1..], nbufs))
  }

  function Steps(f: Flat, ops: seq<Op>, nbufs: nat): Flat
    requires AllLegal(f, ops, nbufs)
    decreases ops
  {
    if ops == [] then f else Steps(Step(f, ops[0], nbufs), ops[1..], nbufs)
  }

  /** What one operation finds: a Get the block on the flat disk, a TmpFree what was last put in the buffer. */
  function Found(f: Flat, op: Op, nbufs: nat): seq<Block>
    requires Legal(f, op, nbufs)
  {
    if op.Get? then [f.disk[op.k]] else if op.TmpFree? then [f.scratch[op.id]] else []
  }

  function Seen(f: Flat, ops: seq<Op>, nbufs: nat): seq<Block>
    requires AllLegal(f, ops, nbufs)
    decreases ops
  {
    if ops == [] then [] else Found(f, ops[0], nbufs) + Seen(Step(f, ops[0], nbufs), ops[1..], nbufs)
  }

  /** The named buffers in use are the held blocks, with the holders' data. */
  ghost predicate Holds(bufs: seq<Buf>, held: map<Key, Block>) {
    && (forall i :: 0 <= i < |bufs| ==> HeldOk(bufs[i], held))
    && (forall k :: k in held ==> Holder(bufs, k))
  }

  ghost predicate HeldOk(b: Buf, held: map<Key, Block>) {
    && b.busy != Superblock
    && (b.busy == Taken && Named(b) ==> b.key in held && b.data == held[b.key])
    && (Named(b) && b.key in held ==> b.busy == Taken)
  }

  predicate IsScratch(b: Buf) {
    b.busy == Taken && !Named(b)
  }

  /** The unnamed buffers in use are the scratch memory; at says which is which. */
  ghost predicate Scratches(bufs: seq<Buf>, at: map<nat, nat>, scratch: map<nat, Block>) {
    && at.Keys == scratch.Keys
    && (forall id :: id in at ==> at[id] < |bufs| && IsScratch(bufs[at[id]]) && bufs[at[id]].data == scratch[id])
    && (forall id, id' :: id in at && id' in at && id != id' ==> at[id] != at[id'])
    && (forall i :: 0 <= i < |bufs| && IsScratch(bufs[i]) ==> exists id :: id in at && at[id] == i)
  }

  /** The blocks in the first n buffers, and the scratch buffers among them. */
  function KeysOf(bufs: seq<Buf>, n: nat): set<Key>
    requires n <= |bufs|
  {
    if n == 0 then {} else KeysOf(bufs, n - 1) + if Named(bufs[n - 1]) then {bufs[n - 1].key} else {}
  }

  function IdsOf(at: map<nat, nat>, n: nat): set<nat> {
    set id | id in at && at[id] < n
  }

  lemma {:induction false} KeysIn(bufs: seq<Buf>, n: nat, k: Key)
    requires n <= |bufs| && k in KeysOf(bufs, n)
    ensures exists i :: 0 <= i < n && Named(bufs[i]) && bufs[i].key == k
    decreases n
  {
    if !(Named(bufs[n - 1]) && bufs[n - 1].key == k) {
      KeysIn(bufs, n - 1, k);
    }
  }

  /** The first n buffers, all in use, counted as blocks and scratch buffers. */
  lemma {:induction false} Census(bufs: seq<Buf>, at: map<nat, nat>, scratch: map<nat, Block>, n: nat)
    requires n <= |bufs| && (forall i, j :: 0 <= i < j < |bufs| && Named(bufs[i]) ==> bufs[i].key != bufs[j].key)
    requires Scratches(bufs, at, scratch) && forall i :: 0 <= i < n ==> bufs[i].busy == Taken
    ensures |KeysOf(bufs, n)| + |IdsOf(at, n)| == n
    decreases n
  {
    hide KeysOf, IdsOf, Scratches;
    if n == 0 {
      NoneYet(bufs, at);
    } else {
      Census(bufs, at, scratch, n - 1);
      if Named(bufs[n - 1]) {
        NextKey(bufs, at, scratch, n - 1);
      } else {
        NextId(bufs, at, scratch, n - 1);
      }
    }
  }

  lemma NoneYet(bufs: seq<Buf>, at: map<nat, nat>)
    ensures KeysOf(bufs, 0) == {} && IdsOf(at, 0) == {}
  {
  }

  lemma NextKey(bufs: seq<Buf>, at: map<nat, nat>, scratch: map<nat, Block>, n: nat)
    requires n < |bufs| && Named(bufs[n]) && forall i, j :: 0 <= i < j < |bufs| && Named(bufs[i]) ==> bufs[i].key != bufs[j].key
    requires Scratches(bufs, at, scratch)
    ensures |KeysOf(bufs, n + 1)| == |KeysOf(bufs, n)| + 1 && IdsOf(at, n + 1) == IdsOf(at, n)
  {
    if bufs[n].key in KeysOf(bufs, n) {
      KeysIn(bufs, n, bufs[n].key);
    }
  }

  lemma NextId(bufs: seq<Buf>, at: map<nat, nat>, scratch: map<nat, Block>, n: nat)
    requires Scratches(bufs, at, scratch) && n < |bufs| && IsScratch(bufs[n])
    ensures |IdsOf(at, n + 1)| == |IdsOf(at, n)| + 1 && KeysOf(bufs, n + 1) == KeysOf(bufs, n)
  {
    var id := WhichId(bufs, at, scratch, n);
    hide Scratches;
    OneMoreId(at, n, id);
  }

  lemma WhichId(bufs: seq<Buf>, at: map<nat, nat>, scratch: map<nat, Block>, n: nat) returns (id: nat)
    requires Scratches(bufs, at, scratch) && n < |bufs| && IsScratch(bufs[n])
    ensures id in at && at[id] == n && forall x :: x in at && at[x] == n ==> x == id
  {
    id :| id in at && at[id] == n;
  }

  lemma OneMoreId(at: map<nat, nat>, n: nat, id: nat)
    requires id in at && at[id] == n && forall x :: x in at && at[x] == n ==> x == id
    ensures |IdsOf(at, n + 1)| == |IdsOf(at, n)| + 1
  {
    assert IdsOf(at, n + 1) == IdsOf(at, n) + {id};
  }

  lemma {:induction false} KeysFit<T>(a: set<T>, b: set<T>)
    requires a <= b
    ensures |a| <= |b|
  {
    if a != {} {
      var x :| x in a;
      KeysFit(a - {x}, b - {x});
    }
  }

  /** freebuf finds something as long as fewer blocks and scratch buffers are held than there are buffers. */
  lemma SomeFree(bufs: seq<Buf>, phys: map<Key, Block>, released: map<Key, Block>, held: map<Key, Block>,
                 at: map<nat, nat>, scratch: map<nat, Block>)
    requires Coherent(bufs, phys, released) && Holds(bufs, held) && Scratches(bufs, at, scratch)
    requires |held| + |scratch| < |bufs|
    ensures exists i :: 0 <= i < |bufs| && bufs[i].busy == Free
  {
    assert |held.Keys| == |held| && |scratch.Keys| == |scratch|;
    if forall i :: 0 <= i < |bufs| ==> bufs[i].busy != Free {
      forall i | 0 <= i < |bufs| ensures bufs[i].busy == Taken && (Named(bufs[i]) ==> bufs[i].key in held) {
        assert HeldOk(bufs[i], held);
      }
      Census(bufs, at, scratch, |bufs|);
      forall k | k in KeysOf(bufs, |bufs|) ensures k in held.Keys { KeysIn(bufs, |bufs|, k); }
      KeysFit(KeysOf(bufs, |bufs|), held.Keys);
      KeysFit(IdsOf(at, |bufs|), scratch.Keys);
    }
  }

  /** One buffer changes hands: the others keep their keys, so the rest of what is held stays held. */
  lemma HoldsStep(bufs: seq<Buf>, bufs': seq<Buf>, held: map<Key, Block>, held': map<Key, Block>, k: Key, i: nat)
    requires Holds(bufs, held) && |bufs| == |bufs'| && i < |bufs| && k.dev != NO_DEVICE
    requires forall a, b :: 0 <= a < b < |bufs'| && Named(bufs'[a]) ==> bufs'[a].key != bufs'[b].key
    requires bufs'[i].key == k && HeldOk(bufs'[i], held') && (bufs[i].key == k || bufs[i].busy == Free)
    requires forall j :: 0 <= j < |bufs| && j != i ==> bufs'[j] == bufs[j]
    requires forall h :: h != k ==> (h in held <==> h in held')
    requires forall h :: h in held && h in held' && h != k ==> held'[h] == held[h]
    ensures Holds(bufs', held')
  {
    forall j | 0 <= j < |bufs'| ensures HeldOk(bufs'[j], held') {
      if j != i {
        assert HeldOk(bufs[j], held);
        assert Named(bufs'[j]) ==> bufs'[j].key != k;
      }
    }
    forall h | h in held' ensures Holder(bufs', h) {
      if h == k {
        assert Named(bufs'[i]);
      } else {
        assert Holder(bufs, h);
        var j :| 0 <= j < |bufs| && bufs[j].key == h && Named(bufs[j]);
        assert HeldOk(bufs[i], held) && HeldOk(bufs[j], held);
        assert bufs'[j].key == h;
      }
    }
  }

  /** Whatever leaves the held buffers alone and names no new one leaves the held blocks held. */
  lemma HoldsKeep(bufs: seq<Buf>, bufs': seq<Buf>, held: map<Key, Block>)
    requires Holds(bufs, held) && |bufs| == |bufs'|
    requires forall i :: 0 <= i < |bufs| && bufs[i].busy == Taken && Named(bufs[i]) ==>
      bufs'[i].key == bufs[i].key && bufs'[i].busy == Taken && bufs'[i].data == bufs[i].data
    requires forall i :: 0 <= i < |bufs| && !(bufs[i].busy == Taken && Named(bufs[i])) ==>
      bufs'[i].busy != Superblock && (bufs'[i].key == bufs[i].key || !Named(bufs'[i]))
      && !(bufs'[i].busy == Taken && Named(bufs'[i]))
    ensures Holds(bufs', held)
  {
    forall i | 0 <= i < |bufs| ensures HeldOk(bufs'[i], held) { assert HeldOk(bufs[i], held); }
    forall k | k in held ensures Holder(bufs', k) {
      assert Holder(bufs, k);
      var i :| 0 <= i < |bufs| && bufs[i].key == k && Named(bufs[i]);
      assert HeldOk(bufs[i], held) && Named(bufs'[i]) && bufs'[i].key == k;
    }
  }

  /** Whatever leaves the scratch buffers alone and makes no new one leaves them what they are. */
  lemma ScratchKeep(bufs: seq<Buf>, bufs': seq<Buf>, at: map<nat, nat>, scratch: map<nat, Block>)
    requires Scratches(bufs, at, scratch) && |bufs| == |bufs'|
    requires forall i :: 0 <= i < |bufs| ==> (IsScratch(bufs[i]) <==> IsScratch(bufs'[i]))
    requires forall i :: 0 <= i < |bufs| && IsScratch(bufs[i]) ==> bufs'[i].data == bufs[i].data
    ensures Scratches(bufs', at, scratch)
  {
  }

  /** The cache stands for f: what was last released is f's disk, what is held is f's held blocks, and the scratch
      buffers are f's scratch memory. */
  ghost predicate Shows(c: Cache, f: Flat, at: map<nat, nat>)
    reads c, c.pool
  {
    c.Valid() && c.released == f.disk && Holds(c.pool[..], f.held) && Scratches(c.pool[..], at, f.scratch)
  }

  /** Another call of bread or tmpbuf, which took the right buffer. */
  ghost predicate OneMore(log: seq<Use>, log': seq<Use>, want: Want) {
    |log'| == |log| + 1 && log'[..|log|] == log && log'[|log|].want == want && UseOk(log', |log|)
  }

  /** What an operation wants a buffer for, if it wants one. */
  function WantOf(op: Op): (w: seq<Want>)
    ensures |w| <= 1
  {
    match op
    case Get(k) => [Wanted(k)]
    case Fill(k, _) => [Wanted(k)]
    case Tmp(_, _) => [Anything]
    case _ => []
  }

  function WantsOf(ops: seq<Op>): seq<Want> {
    if ops == [] then [] else WantsOf(ops[..|ops| - 1]) + WantOf(ops[|ops| - 1])
  }

  /** The calls are those of the operations, and each took the buffer it should. */
  ghost predicate Logged(log: seq<Use>, ops: seq<Op>) {
    var wants := WantsOf(ops);
    |log| == |wants| && forall t :: 0 <= t < |log| ==> log[t].want == wants[t] && UseOk(log, t)
  }

  lemma LoggedMore(log: seq<Use>, ops: seq<Op>, op: Op, log': seq<Use>)
    requires Logged(log, ops) && if WantOf(op) == [] then log' == log else OneMore(log, log', WantOf(op)[0])
    ensures Logged(log', ops + [op])
  {
    hide UseOk;
    assert (ops + [op])[..|ops|] == ops;
    forall t | 0 <= t < |log'| ensures log'[t].want == WantsOf(ops + [op])[t] && UseOk(log', t) {
      if t < |log| {
        UseKept(log, log', t);
        assert log'[t] == log'[..|log|][t];
      }
    }
  }

  lemma UseKept(log: seq<Use>, log': seq<Use>, t: nat)
    requires t < |log| <= |log'| && log'[..|log|] == log && UseOk(log, t)
    ensures UseOk(log', t)
  {
    hide LastUse, Recent, LeastRecent;
    assert log'[t] == log'[..|log|][t];
    assert log'[..t] == log'[..|log|][..t];
  }

  method Take(c: Cache, k: Key, rewrite: bool, at: map<nat, nat>, ghost f: Flat) returns (bp: nat)
    requires Shows(c, f, at) && Legal(f, Get(k), c.pool.Length)
    modifies c, c.pool
    ensures bp < c.pool.Length && Shows(c, f.(held := f.held[k := c.pool[bp].data]), at)
    ensures c.pool[bp].key == k && c.pool[bp].busy == Taken && (!rewrite ==> c.pool[bp].data == f.disk[k])
    ensures OneMore(old(c.log), c.log, Wanted(k))
  {
    hide Coherent, Holder, Age, Scratches, Stamped, UseOk;
    ghost var bufs := c.pool[..];
    assert k in c.phys by { SameDevices(bufs, c.phys, c.released); }
    SomeFree(bufs, c.phys, c.released, f.held, at, f.scratch);
    forall i | 0 <= i < c.pool.Length && c.pool[i].key == k ensures c.pool[i].busy == Free {
      assert HeldOk(bufs[i], f.held);
    }
    ghost var i :| 0 <= i < |bufs| && bufs[i].busy == Free;
    assert c.pool[i].busy == Free;
    bp := c.BRead(k, rewrite);
    assert HeldOk(bufs[bp], f.held);
    KeysDiffer(c.pool[..], c.phys, c.released);
    HoldsStep(bufs, c.pool[..], f.held, f.held[k := c.pool[bp].data], k, bp);
    ScratchKeep(bufs, c.pool[..], at, f.scratch);
  }

  lemma SameDevices(bufs: seq<Buf>, phys: map<Key, Block>, released: map<Key, Block>)
    requires Coherent(bufs, phys, released)
    ensures phys.Keys == released.Keys
  {
  }

  lemma KeysDiffer(bufs: seq<Buf>, phys: map<Key, Block>, released: map<Key, Block>)
    requires Coherent(bufs, phys, released)
    ensures forall a, b :: 0 <= a < b < |bufs| && Named(bufs[a]) ==> bufs[a].key != bufs[b].key
  {
  }

  method Find(c: Cache, k: Key, ghost f: Flat, ghost at: map<nat, nat>) returns (bp: nat)
    requires Shows(c, f, at) && k in f.held
    ensures bp < c.pool.Length && c.pool[bp].key == k && Named(c.pool[bp])
    ensures c.pool[bp].busy == Taken && c.pool[bp].data == f.held[k]
  {
    ghost var bufs := c.pool[..];
    assert Holder(bufs, k);
    var i := c.BFind(k);
    assert i >= 0;
    assert HeldOk(bufs[i], f.held);
    bp := i;
  }

  method Change(c: Cache, bp: nat, data: Block, ghost f: Flat, ghost at: map<nat, nat>)
    requires Shows(c, f, at) && bp < c.pool.Length && c.pool[bp].busy == Taken && Named(c.pool[bp])
    modifies c, c.pool
    ensures Shows(c, f.(held := f.held[c.pool[bp].key := data]), at) && c.pool[bp].key == old(c.pool[bp].key)
    ensures c.log == old(c.log)
  {
    hide Coherent, Holder, Scratches, Stamped;
    ghost var bufs := c.pool[..];
    assert HeldOk(bufs[bp], f.held);
    c.Modify(bp, data);
    KeysDiffer(c.pool[..], c.phys, c.released);
    HoldsStep(bufs, c.pool[..], f.held, f.held[c.pool[bp].key := data], c.pool[bp].key, bp);
    ScratchKeep(bufs, c.pool[..], at, f.scratch);
  }

  method GiveBack(c: Cache, k: Key, dirty: nat, ghost f: Flat, ghost at: map<nat, nat>)
    requires Shows(c, f, at) && Legal(f, Put(k, dirty), c.pool.Length)
    modifies c, c.pool
    ensures Shows(c, f.(disk := f.disk[k := f.held[k]], held := f.held - {k}), at) && c.log == old(c.log)
  {
    hide Coherent, Holder, Scratches, Stamped;
    ghost var bufs := c.pool[..];
    var bp := Find(c, k, f, at);
    c.BFree(bp, dirty);
    KeysDiffer(c.pool[..], c.phys, c.released);
    HoldsStep(bufs, c.pool[..], f.held, f.held - {k}, k, bp);
    ScratchKeep(bufs, c.pool[..], at, f.scratch);
  }

  /** tmpbuf, and its user's data. */
  method TakeScratch(c: Cache, id: nat, data: Block, at: map<nat, nat>, ghost f: Flat) returns (at': map<nat, nat>)
    requires Shows(c, f, at) && Legal(f, Tmp(id, data), c.pool.Length)
    modifies c, c.pool
    ensures Shows(c, f.(scratch := f.scratch[id := data]), at') && OneMore(old(c.log), c.log, Anything)
  {
    hide Coherent, Holder, Age, Holds, Scratches, Stamped, UseOk;
    ghost var bufs := c.pool[..];
    SomeFree(bufs, c.phys, c.released, f.held, at, f.scratch);
    ghost var i :| 0 <= i < |bufs| && bufs[i].busy == Free;
    assert c.pool[i].busy == Free;
    var bp := c.TmpBuf();
    c.Modify(bp, data);
    at' := at[id := bp];
    NoPins(bufs, f.held);
    HoldsKeep(bufs, c.pool[..], f.held);
    ScratchMore(bufs, c.pool[..], at, f.scratch, id, bp);
  }

  lemma NoPins(bufs: seq<Buf>, held: map<Key, Block>)
    requires Holds(bufs, held)
    ensures forall i :: 0 <= i < |bufs| ==> bufs[i].busy != Superblock
  {
    forall i | 0 <= i < |bufs| ensures bufs[i].busy != Superblock { assert HeldOk(bufs[i], held); }
  }

  lemma ScratchMore(bufs: seq<Buf>, bufs': seq<Buf>, at: map<nat, nat>, scratch: map<nat, Block>, id: nat, i: nat)
    requires Scratches(bufs, at, scratch) && i < |bufs| == |bufs'| && id !in scratch && bufs[i].busy == Free && IsScratch(bufs'[i])
    requires forall j :: 0 <= j < |bufs| && j != i ==> bufs'[j] == bufs[j]
    ensures Scratches(bufs', at[id := i], scratch[id := bufs'[i].data])
  {
    var at' := at[id := i];
    forall j | 0 <= j < |bufs'| && IsScratch(bufs'[j]) ensures exists x :: x in at' && at'[x] == j {
      if j == i {
        assert at'[id] == i;
      } else {
        var x :| x in at && at[x] == j;
        assert at'[x] == j;
      }
    }
  }

  /** The user of a scratch buffer changes it. */
  method ChangeScratch(c: Cache, id: nat, data: Block, at: map<nat, nat>, ghost f: Flat)
    requires Shows(c, f, at) && id in f.scratch
    modifies c, c.pool
    ensures Shows(c, f.(scratch := f.scratch[id := data]), at) && c.log == old(c.log)
  {
    hide Coherent, Holder, Holds, Stamped;
    ghost var bufs := c.pool[..];
    c.Modify(at[id], data);
    NoPins(bufs, f.held);
    HoldsKeep(bufs, c.pool[..], f.held);
    assert forall i :: 0 <= i < |bufs| ==> (IsScratch(bufs[i]) <==> IsScratch(c.pool[..][i]));
  }

  /** tmpfree. */
  method DropScratch(c: Cache, id: nat, at: map<nat, nat>, ghost f: Flat) returns (at': map<nat, nat>, data: Block)
    requires Shows(c, f, at) && id in f.scratch
    modifies c, c.pool
    ensures Shows(c, f.(scratch := f.scratch - {id}), at') && data == f.scratch[id] && c.log == old(c.log)
  {
    hide Coherent, Holder, Holds, Stamped;
    ghost var bufs := c.pool[..];
    data := c.pool[at[id]].data;
    c.BFree(at[id], 0);
    at' := at - {id};
    NoPins(bufs, f.held);
    HoldsKeep(bufs, c.pool[..], f.held);
    ScratchLess(bufs, c.pool[..], at, f.scratch, id);
  }

  lemma ScratchLess(bufs: seq<Buf>, bufs': seq<Buf>, at: map<nat, nat>, scratch: map<nat, Block>, id: nat)
    requires Scratches(bufs, at, scratch) && id in scratch && |bufs'| == |bufs| && bufs'[at[id]].busy == Free
    requires forall j :: 0 <= j < |bufs| && j != at[id] ==> bufs'[j] == bufs[j]
    ensures Scratches(bufs', at - {id}, scratch - {id})
  {
    var at' := at - {id};
    forall j | 0 <= j < |bufs'| && IsScratch(bufs'[j]) ensures exists x :: x in at' && at'[x] == j {
      var x :| x in at && at[x] == j;
      assert x in at' && at'[x] == j;
    }
  }

  /** Every operation on the cache is the same operation on the flat disk. */
  method Apply(c: Cache, op: Op, at: map<nat, nat>, ghost f: Flat) returns (seen: seq<Block>, at': map<nat, nat>)
    requires Shows(c, f, at) && Legal(f, op, c.pool.Length)
    modifies c, c.pool
    ensures Shows(c, Step(f, op, c.pool.Length), at') && seen == Found(f, op, c.pool.Length)
    ensures if WantOf(op) == [] then c.log == old(c.log) else OneMore(old(c.log), c.log, WantOf(op)[0])
  {
    hide Coherent, Holder, Holds, HeldOk, Scratches, Stamped, OneMore;
    seen, at' := [], at;
    ghost var bufs := c.pool[..];
    match op {
      case Get(k) =>
        var bp := Take(c, k, false, at, f);
        seen := [c.pool[bp].data];
      case Fill(k, data) =>
        var bp := Take(c, k, true, at, f);
        ghost var got := f.held[k := c.pool[bp].data];
        Change(c, bp, data, f.(held := got), at);
        assert got[k := data] == f.held[k := data];
      case Set(k, data) =>
        var bp := Find(c, k, f, at);
        Change(c, bp, data, f, at);
      case Put(k, dirty) =>
        GiveBack(c, k, dirty, f, at);
      case Tmp(id, data) =>
        at' := TakeScratch(c, id, data, at, f);
      case TmpSet(id, data) =>
        ChangeScratch(c, id, data, at, f);
      case TmpFree(id) =>
        var data;
        at', data := DropScratch(c, id, at, f);
        seen := [data];
      case Sync =>
        NoPins(bufs, f.held);
        c.BufSync();
        HoldsKeep(bufs, c.pool[..], f.held);
        ScratchKeep(bufs, c.pool[..], at, f.scratch);
      case Drop(dev) =>
        NoPins(bufs, f.held);
        NotHeld(bufs, f.held, dev);
        c.BDrop(dev);
        HoldsKeep(bufs, c.pool[..], f.held);
        ScratchKeep(bufs, c.pool[..], at, f.scratch);
    }
  }

  lemma NotHeld(bufs: seq<Buf>, held: map<Key, Block>, dev: Word)
    requires Holds(bufs, held) && dev != NO_DEVICE && forall k :: k in held ==> k.dev != dev
    ensures forall i :: 0 <= i < |bufs| && bufs[i].key.dev == dev ==> bufs[i].busy == Free
  {
    forall i | 0 <= i < |bufs| && bufs[i].key.dev == dev ensures bufs[i].busy == Free { assert HeldOk(bufs[i], held); }
  }

  /** Any run over a cold cache gives every reader what a flat disk would have given it, and every user of a
      scratch buffer what it put there; a final bufsync with no block held leaves that flat disk on the devices. */
  method Run(nbufs: nat, devices: map<Key, Block>, ops: seq<Op>) returns (c: Cache, seen: seq<Block>)
    requires AllLegal(Flat(devices, map[], map[]), ops, nbufs)
    ensures seen == Seen(Flat(devices, map[], map[]), ops, nbufs)
    ensures fresh(c) && c.Valid() && c.released == Steps(Flat(devices, map[], map[]), ops, nbufs).disk
    ensures Logged(c.log, ops)
    ensures Steps(Flat(devices, map[], map[]), ops, nbufs).held == map[] ==>
      c.phys == Steps(Flat(devices, map[], map[]), ops, nbufs).disk
  {
    hide Coherent, Holder, Legal, Step, Found, Room, OneMore, UseOk, Stamped;
    c := new Cache(nbufs, devices);
    seen := [];
    var at := map[];
    ghost var f0 := Flat(devices, map[], map[]);
    ghost var f := f0;
    assert Shows(c, f, at);
    assert ops[..0] == [];
    hide Holds, Scratches, Logged;
    var n := 0;
    while n < |ops|
      invariant 0 <= n <= |ops| && Shows(c, f, at) && c.pool.Length == nbufs && fresh(c) && fresh(c.pool)
      invariant AllLegal(f, ops[n..], nbufs) && Logged(c.log, ops[..n])
      invariant seen + Seen(f, ops[n..], nbufs) == Seen(f0, ops, nbufs)
      invariant Steps(f, ops[n..], nbufs) == Steps(f0, ops, nbufs)
    {
      assert ops[n..][0] == ops[n] && ops[n..][1..] == ops[n + 1..];
      var got;
      ghost var log: seq<Use> := c.log;
      got, at := Apply(c, ops[n], at, f);
      LoggedMore(log, ops[..n], ops[n], c.log);
      assert ops[..n + 1] == ops[..n] + [ops[n]];
      seen := seen + got;
      f := Step(f, ops[n], nbufs);
      n := n + 1;
    }
    AllBack(c.pool[..], f.held);
    assert ops[..n] == ops;
    c.BufSync();
  }

  /** With no block held, every named buffer is free. */
  lemma AllBack(bufs: seq<Buf>, held: map<Key, Block>)
    requires Holds(bufs, held)
    ensures held == map[] ==> forall i :: 0 <= i < |bufs| && Named(bufs[i]) ==> bufs[i].busy == Free
  {
    forall i | 0 <= i < |bufs| ensures held == map[] && Named(bufs[i]) ==> bufs[i].busy == Free { assert HeldOk(bufs[i], held); }
  }
}
