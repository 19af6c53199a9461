/** Whole runs of lseek, read and write on one open file, seen as operations on a byte sequence. */
module Sessions {
  import opened Blocks
  import opened FreeList
  import opened Ownership
  import opened BlockMap
  import opened Files

  datatype Access = RdOnly | WrOnly | RdWr

  datatype Op = Seek(p: nat) | Read(k: nat) | Write(data: seq<Byte>)

  /** What one operation does to the content of the file and to the file pointer.  w says how many bytes
      a write managed to write. */
  function Step(s: seq<Byte>, ptr: nat, op: Op, access: Access, append: bool, w: nat): (seq<Byte>, nat) {
    match op
    case Seek(p) => (s, p)
    case Read(k) => (s, if access.WrOnly? then ptr else ptr + Readable(|s|, ptr, k))
    case Write(data) =>
      if access.RdOnly? || w > |data| then (s, ptr) else
        var at := if append then |s| else ptr;
        (Splice(s, at, data[..w]), at + w)
  }

  /** What a read returns. */
  function Result(s: seq<Byte>, ptr: nat, op: Op, access: Access): seq<Byte> {
    if op.Read? && !access.WrOnly? && Readable(|s|, ptr, op.k) > 0 then s[ptr..ptr + Readable(|s|, ptr, op.k)] else []
  }

  /** An append puts the data behind the file, another write puts them where the pointer is, and a seek or a read only
      moves the pointer: to the place given, or behind what was read. */
  lemma CallsAre(s: seq<Byte>, ptr: nat, data: seq<Byte>, k: nat, access: Access, append: bool)
    requires access.RdWr?
    ensures Step(s, ptr, Write(data), access, true, |data|) == (s + data, |s| + |data|)
    ensures ptr <= |s| && |data| <= |s| - ptr ==>
      Step(s, ptr, Write(data), access, false, |data|) == (s[..ptr] + data + s[ptr + |data|..], ptr + |data|)
    ensures Step(s, ptr, Seek(k), access, append, 0) == (s, k)
    ensures var out := Result(s, ptr, Read(k), access); Step(s, ptr, Read(k), access, append, 0) == (s, ptr + |out|)
    ensures ptr <= |s| && k <= |s| - ptr ==> Result(s, ptr, Read(k), access) == s[ptr..ptr + k]
  {
    assert data[..|data|] == data;
    SpliceIs(s, |s|, data);
    SpliceIs(s, ptr, data);
    assert Splice(s, |s|, data) == s + data;
    if ptr <= |s| && |data| <= |s| - ptr {
      assert Splice(s, ptr, data) == s[..ptr] + data + s[ptr + |data|..];
    }
  }

  function Steps(s: seq<Byte>, ptr: nat, ops: seq<Op>, access: Access, append: bool, ws: seq<nat>): (seq<Byte>, nat)
    requires |ws| == |ops|
  {
    if ops == [] then (s, ptr) else
      var k := |ops| - 1;
      var (s1, ptr1) := Steps(s, ptr, ops[..k], access, append, ws[..k]);
      Step(s1, ptr1, ops[k], access, append, ws[k])
  }

  function Results(s: seq<Byte>, ptr: nat, ops: seq<Op>, access: Access, append: bool, ws: seq<nat>): seq<seq<Byte>>
    requires |ws| == |ops|
  {
    if ops == [] then [] else
      var k := |ops| - 1;
      var (s1, ptr1) := Steps(s, ptr, ops[..k], access, append, ws[..k]);
      Results(s, ptr, ops[..k], access, append, ws[..k]) + [Result(s1, ptr1, ops[k], access)]
  }

  /** read: rwsetup takes the offset from the file pointer, readi moves the bytes. */
  method ReadCall(fs: Fs, n: nat, ptr: nat, k: nat, ghost s: seq<Byte>) returns (ptr': nat, out: seq<Byte>)
    requires fs.Valid() && IsFile(fs.Now(), n, s)
    modifies fs, fs.st, fs.st.sfree
    ensures fs.Valid() && fs.Now() == old(fs.Now())
    ensures ptr' == ptr + Readable(|s|, ptr, k)
    ensures |out| <= k && ptr' == ptr + |out| && (|out| < k ==> ptr' >= |s|) && (out != [] ==> out == s[ptr..ptr'])
    ensures out == if Readable(|s|, ptr, k) == 0 then [] else s[ptr..ptr + Readable(|s|, ptr, k)]
  {
    hide IsFile, Owns, Mounted, Content;
    FileSize(fs.Now(), n, s);
    var u := new Udata(seq(k, _ => 0), 0, k, ptr);
    Readi(fs, n, u);
    ptr', out := u.offset, u.mem[..u.base];
  }

  /** The offset of a write call: with O_APPEND rwsetup moves the pointer to the end of the file first. */
  function WriteAt(size: nat, ptr: nat, append: bool): nat {
    if append then size else ptr
  }

  /** A permitted write past the largest offset.  It writes nothing, and yet the size goes to the offset, so that
      the inode no longer stands for a byte sequence. */
  predicate Spoils(size: nat, ptr: nat, op: Op, access: Access, append: bool) {
    op.Write? && !access.RdOnly? && WriteAt(size, ptr, append) > MAXOFF
  }

  /** write, at any offset. */
  method WriteCall(fs: Fs, n: nat, ptr: nat, data: seq<Byte>, append: bool, ghost s: seq<Byte>)
    returns (ptr': nat, w: nat)
    requires fs.Valid() && IsFile(fs.Now(), n, s)
    modifies fs, fs.st, fs.st.sfree
    ensures fs.Valid() && w <= |data| && ptr' == WriteAt(|s|, ptr, append) + w
    ensures ptr' <= MAXOFF <==> WriteAt(|s|, ptr, append) <= MAXOFF
    ensures ptr' <= MAXOFF ==> IsFile(fs.Now(), n, Splice(s, WriteAt(|s|, ptr, append), data[..w]))
    ensures append && ptr' <= MAXOFF ==> IsFile(fs.Now(), n, s + data[..w])
    ensures !append ==> ptr' == ptr + w
    ensures ptr' > MAXOFF ==> w == 0 && n < |fs.inodes| && fs.inodes[n].size == ptr'
    ensures w < |data| ==> Stopped(fs.Now(), n, ptr', if ptr' >= MAXOFF then EFBIG else ENOSPC)
    ensures OthersKept(old(fs.Now()), fs.Now(), n)
  {
    hide IsFile, Owns, Mounted, Content, Wrote, OthersKept, Splice;
    ghost var v := fs.Now();
    FileSize(v, n, s);
    var at := if append then fs.inodes[n].size else ptr;
    var u := new Udata(data, 0, |data|, at);
    Writei(fs, n, u);
    ptr', w := u.offset, u.base;
    WroteWithin(v, fs.Now(), n, at, data[..w]);
    WroteOthersKept(v, fs.Now(), n, at, data[..w]);
    if ptr' <= MAXOFF {
      WroteFile(v, fs.Now(), n, at, data[..w], s);
      Appended(s, data[..w]);
    }
  }

  lemma Appended(s: seq<Byte>, data: seq<Byte>)
    ensures Splice(s, |s|, data) == s + data
  {
    SpliceIs(s, |s|, data);
  }

  lemma WroteWithin(v: View, v': View, n: nat, off: nat, data: seq<Byte>)
    requires Wrote(v, v', n, off, data)
    ensures off > MAXOFF ==> data == []
    ensures off <= MAXOFF ==> off + |data| <= MAXOFF
  {
  }

  /** What a call may do to the device: only a permitted write touches it, a short one has its reason there, and
      other files stay. */
  ghost predicate Took(v: View, v': View, n: nat, op: Op, access: Access, w: nat, ptr': nat) {
    && OthersKept(v, v', n)
    && match op
       case Seek(_) => v' == v && w == 0
       case Read(_) => v' == v && w == 0
       case Write(data) =>
         if access.RdOnly? then v' == v && w == 0
         else w <= |data| && (w < |data| ==> Stopped(v', n, ptr', if ptr' >= MAXOFF then EFBIG else ENOSPC))
  }

  /** One system call on an open file; a call the access mode does not allow does nothing. */
  method Call(fs: Fs, n: nat, ptr: nat, op: Op, access: Access, append: bool, ghost s: seq<Byte>)
    returns (ptr': nat, out: seq<Byte>, w: nat)
    requires fs.Valid() && IsFile(fs.Now(), n, s)
    modifies fs, fs.st, fs.st.sfree
    ensures fs.Valid() && Took(old(fs.Now()), fs.Now(), n, op, access, w, ptr')
    ensures var (s', p') := Step(s, ptr, op, access, append, w);
      ptr' == p' && out == Result(s, ptr, op, access) && (!Spoils(|s|, ptr, op, access, append) ==> IsFile(fs.Now(), n, s'))
    ensures Spoils(|s|, ptr, op, access, append) ==> n < |fs.inodes| && fs.inodes[n].size == ptr' > MAXOFF
  {
    hide IsFile, Owns, Mounted, OthersKept, Splice, Stopped;
    ptr', out, w := ptr, [], 0;
    OthersRefl(fs.Now(), n);
    match op {
      case Seek(p) =>
        ptr' := p;
      case Read(k) =>
        if !access.WrOnly? {
          ptr', out := ReadCall(fs, n, ptr, k, s);
        }
      case Write(data) =>
        if !access.RdOnly? {
          ptr', w := WriteCall(fs, n, ptr, data, append, s);
        }
    }
  }

  /** One call of a session: the file holds s before it with the pointer at ptr, the call is no write past the
      largest offset, and it does what a byte sequence would. */
  ghost predicate Faithful(v: View, v': View, n: nat, now: (seq<Byte>, nat), op: Op, access: Access, append: bool, w: nat) {
    && IsFile(v, n, now.0) && !Spoils(|now.0|, now.1, op, access, append)
    && Took(v, v', n, op, access, w, Step(now.0, now.1, op, access, append, w).1)
    && IsFile(v', n, Step(now.0, now.1, op, access, append, w).0)
  }

  /** Any sequence of seeks, reads and writes behaves as the same sequence on a byte sequence, with each write cut
      to what fitted.  views are the states of the device between the calls.  A session ends early only at a write
      past the largest offset, which spoils the file. */
  method Session(fs: Fs, n: nat, ops: seq<Op>, access: Access, append: bool, ghost s: seq<Byte>)
    returns (ptr: nat, outs: seq<seq<Byte>>, ws: seq<nat>, ghost views: seq<View>)
    requires fs.Valid() && IsFile(fs.Now(), n, s)
    modifies fs, fs.st, fs.st.sfree
    ensures fs.Valid() && |outs| == |ws| <= |ops| && |views| == |ws| + 1 && views[0] == old(fs.Now())
    ensures forall i :: 0 <= i < |ws| ==>
      Faithful(views[i], views[i + 1], n, Steps(s, 0, ops[..i], access, append, ws[..i]), ops[i], access, append, ws[i])
    ensures outs == Results(s, 0, ops[..|ws|], access, append, ws)
    ensures var k, (s', p') := |ws|, Steps(s, 0, ops[..|ws|], access, append, ws);
      IsFile(views[k], n, s') &&
      if k == |ops| then fs.Now() == views[k] && ptr == p'
      else Spoils(|s'|, p', ops[k], access, append) && n < |fs.inodes| && fs.inodes[n].size > MAXOFF
    ensures OthersKept(old(fs.Now()), fs.Now(), n)
  {
    hide IsFile, Owns, Mounted, OthersKept, Step, Result, Took, Spoils, Steps, Results;
    ghost var v, cur := fs.Now(), s;
    OthersRefl(v, n);
    ptr, outs, ws, views := 0, [], [], [v];
    StepsNone(s, 0, access, append);
    var i := 0;
    while i < |ops|
      invariant fs.Valid() && IsFile(fs.Now(), n, cur)
      invariant 0 <= i <= |ops| && |ws| == |outs| == i && |views| == i + 1 && views[0] == v && views[i] == fs.Now()
      invariant (cur, ptr) == Steps(s, 0, ops[..i], access, append, ws)
      invariant outs == Results(s, 0, ops[..i], access, append, ws)
      invariant forall j :: 0 <= j < i ==>
        Faithful(views[j], views[j + 1], n, Steps(s, 0, ops[..j], access, append, ws[..j]), ops[j], access, append, ws[j])
      invariant OthersKept(v, fs.Now(), n)
    {
      ghost var v1, ptr0, ws0 := fs.Now(), ptr, ws;
      var out, w;
      ptr, out, w := Call(fs, n, ptr, ops[i], access, append, cur);
      TookOthers(v1, fs.Now(), n, ops[i], access, w, ptr);
      OthersTrans(v, v1, fs.Now(), n);
      if !Spoils(|cur|, ptr0, ops[i], access, append) {
        FileSize(fs.Now(), n, Step(cur, ptr0, ops[i], access, append, w).0);
      }
      if n < |fs.inodes| && fs.inodes[n].size > MAXOFF {
        return;
      }
      StepsMore(s, 0, ops[..i], ops[i], access, append, ws, w);
      assert ops[..i + 1] == ops[..i] + [ops[i]];
      ghost var now := (cur, ptr0);
      cur := Step(cur, ptr0, ops[i], access, append, w).0;
      outs, ws, views := outs + [out], ws + [w], views + [fs.Now()];
      assert ws[..i] == ws0;
      assert Faithful(v1, fs.Now(), n, now, ops[i], access, append, w);
      assert forall j :: 0 <= j < i ==> ws[..j] == ws0[..j];
      i := i + 1;
    }
    assert ops[..|ops|] == ops;
  }

  lemma StepsNone(s: seq<Byte>, ptr: nat, access: Access, append: bool)
    ensures Steps(s, ptr, [], access, append, []) == (s, ptr) && Results(s, ptr, [], access, append, []) == []
  {
  }

  lemma TookOthers(v: View, v': View, n: nat, op: Op, access: Access, w: nat, ptr': nat)
    requires Took(v, v', n, op, access, w, ptr')
    ensures OthersKept(v, v', n)
  {
  }

  lemma StepsMore(s: seq<Byte>, ptr: nat, ops: seq<Op>, op: Op, access: Access, append: bool, ws: seq<nat>, w: nat)
    requires |ws| == |ops|
    ensures
      var (s1, ptr1) := Steps(s, ptr, ops, access, append, ws);
      && Steps(s, ptr, ops + [op], access, append, ws + [w]) == Step(s1, ptr1, op, access, append, w)
      && Results(s, ptr, ops + [op], access, append, ws + [w])
           == Results(s, ptr, ops, access, append, ws) + [Result(s1, ptr1, op, access)]
  {
    assert (ops + [op])[..|ops|] == ops && (ws + [w])[..|ws|] == ws;
  }
}
