/** A whole device under any sequence of file and directory operations: files are byte sequences, directories are
    finite maps, and no block is lost or used twice (Kernel/filesys.c, Kernel/inode.c). */
module Volumes {
  import opened Blocks
  import opened FreeList
  import opened Ownership
  import opened BlockMap
  import opened Truncate
  import opened Files
  import opened Directories
  import opened Images

  /** What an inode stands for.  A file is overlong after a write behind the largest offset. */
  datatype Node = Unused | Regular(data: seq<Byte>) | Overlong | Directory(entries: seq<Byte>)

  ghost predicate NodeIs(v: View, n: nat, x: Node)
    requires Shape(v) && n < |v.inodes|
  {
    match x
    case Unused => v.inodes[n] == UnusedInode()
    case Regular(s) => v.inodes[n].mode == Reg && IsFile(v, n, s)
    case Overlong => v.inodes[n].mode == Reg && v.inodes[n].size > MAXOFF
    case Directory(s) => v.inodes[n].mode == Dir && IsDir(v, n, s)
  }

  /** The device holds these nodes, one for each inode. */
  ghost predicate Stands(v: View, w: seq<Node>) {
    Shape(v) && |w| == |v.inodes| && forall n :: 0 <= n < |w| ==> NodeIs(v, n, w[n])
  }

  /** newfile, and mkdir for a directory; i_deref of an inode without links; writei, readi, f_trunc, ch_link and
      srch_dir. */
  datatype Op =
    | Create(n: nat, dir: bool) | Remove(n: nat)
    | Write(n: nat, off: nat, data: seq<Byte>) | Read(n: nat, off: nat, count: nat) | Empty(n: nat)
    | Link(n: nat, oldname: seq<Byte>, newname: seq<Byte>, ino: Option<Word>) | LookUp(n: nat, name: seq<Byte>)

  datatype Result =
    | Nothing | Took(count: nat, error: nat) | Got(data: seq<Byte>) | Answer(error: nat) | Found(ino: Option<Word>)

  /** A name to link is 30 bytes of a buffer, and a name looked up is not empty. */
  predicate OpOk(op: Op) {
    match op
    case Link(_, _, newname, _) => |newname| >= NAMELEN
    case LookUp(_, name) => Component(name, NAMELEN) != []
    case _ => true
  }

  function Slice(s: seq<Byte>, off: nat, count: nat): seq<Byte> {
    var k := Readable(|s|, off, count);
    if k == 0 then [] else s[off..off + k]
  }

  /** The number ch_link stores; no inode is 0. */
  function InoOf(ino: Option<Word>): Word {
    if ino.Some? then ino.value else 0
  }

  /** What an operation that gave this answer has made of node x. */
  function Next(x: Node, op: Op, r: Result): Node {
    match op
    case Create(_, dir) => if x != Unused then x else if dir then Directory([]) else Regular([])
    case Remove(_) => Unused
    case Write(n, off, data) =>
      if !r.Took? || r.count > |data| then x
      else if x.Overlong? || off > MAXOFF then Overlong
      else if x.Regular? then Regular(Splice(x.data, off, data[..r.count])) else x
    case Read(_, _, _) => x
    case Empty(_) => if x.Regular? || x.Overlong? then Regular([]) else x
    case Link(_, oldname, newname, ino) =>
      if !x.Directory? || r != Answer(0) || |newname| < NAMELEN then x
      else Directory(Relinked(x.entries, Find(x.entries, Component(oldname, NAMELEN), 0),
                              EntryOf(InoOf(ino), Stored(newname, NAMELEN))))
    case LookUp(_, _) => x
  }

  /** The answer an operation gives on node x, v being the device afterwards.  A short write has its reason there,
      and a link fails in the source's order or because the directory cannot grow. */
  ghost predicate Answers(x: Node, op: Op, r: Result, v: View) {
    match op
    case Create(_, _) => r == Nothing
    case Remove(_) => r == Nothing
    case Write(n, off, data) =>
      if !x.Regular? && !x.Overlong? then r == Nothing
      else r.Took? && r.count <= |data| && if r.count == |data| then r.error == 0 else Stopped(v, n, off + r.count, r.error)
    case Read(_, off, count) =>
      r == if x.Regular? then Got(Slice(x.data, off, count))
           else if x.Directory? then Got(Slice(x.entries, off, count)) else Nothing
    case Empty(_) => r == Nothing
    case Link(_, oldname, newname, ino) =>
      if !x.Directory? then r == Nothing
      else
        var early := LinkError(x.entries, oldname, newname, ino.Some?, false, true);
        && r.Answer? && (early != 0 ==> r.error == early)
        && (early == 0 && r.error != 0 ==>
              Find(x.entries, Component(oldname, NAMELEN), 0) == Count(x.entries) && r.error in {ENOSPC, EFBIG})
    case LookUp(_, name) => r == if x.Directory? then Found(Get(x.entries, Component(name, NAMELEN))) else Nothing
  }

  /** One operation on the nodes: all but the one named stay. */
  ghost predicate Step(w: seq<Node>, op: Op, r: Result, w': seq<Node>, v: View) {
    if op.n >= |w| then r == Nothing && w' == w
    else w' == w[op.n := Next(w[op.n], op, r)] && Answers(w[op.n], op, r, v)
  }

  // ------------------------------------------------------------------ frames

  /** Every node but n is as it was. */
  ghost predicate Framed(v: View, v': View, n: nat) {
    && Shape(v) && Shape(v') && |v'.inodes| == |v.inodes|
    && forall m: nat, x: Node :: m < |v.inodes| && m != n && NodeIs(v, m, x) ==> NodeIs(v', m, x)
  }

  lemma FramedBy(v: View, v': View, n: nat)
    requires Shape(v) && Shape(v') && OthersKept(v, v', n) && InodesKept(v, v', n)
    ensures Framed(v, v', n)
  {
    hide IsFile, IsDir;
  }

  lemma FramedTrans(v: View, v1: View, v2: View, n: nat)
    requires Framed(v, v1, n) && Framed(v1, v2, n)
    ensures Framed(v, v2, n)
  {
    hide NodeIs;
  }

  lemma StandsStep(v: View, v': View, w: seq<Node>, n: nat, y: Node)
    requires Stands(v, w) && n < |w| && Framed(v, v', n) && NodeIs(v', n, y)
    ensures Stands(v', w[n := y])
  {
    hide NodeIs;
    var w' := w[n := y];
    forall m | 0 <= m < |w| ensures NodeIs(v', m, w'[m]) {
      assert NodeIs(v, m, w[m]);
    }
  }

  /** The mode plays no part in the block map either. */
  ghost function Moded(v: View, n: nat, mode: Mode): View
    requires n < |v.inodes|
  {
    v.(inodes := v.inodes[n := v.inodes[n].(mode := mode)])
  }

  lemma ModedOwns(v: View, n: nat, mode: Mode)
    requires Owns(v) && n < |v.inodes|
    ensures Owns(Moded(v, n, mode))
  {
    var v' := Moded(v, n, mode);
    assert forall m :: 0 <= m < |v.inodes| ==> v'.inodes[m].addr == v.inodes[m].addr;
    assert BackOk(v') by {
      forall b: nat | b < |v'.role| && v'.role[b].Owned?
        ensures CellOk(v', v'.role[b].cell, v'.role[b].level) && CellValue(v', v'.role[b].cell) == b && v'.role[b].level <= 2
      {
        assert CellOk(v, v.role[b].cell, v.role[b].level) && CellValue(v, v.role[b].cell) == b;
      }
    }
  }

  lemma ModedMap(v: View, n: nat, mode: Mode, m: nat, bm: Word)
    requires Shape(v) && n < |v.inodes| && m < |v.inodes|
    ensures Shape(Moded(v, n, mode)) && Map(Moded(v, n, mode), m, bm) == Map(v, m, bm)
  {
    assert Moded(v, n, mode).inodes[m].addr == v.inodes[m].addr;
  }

  lemma ModedFramed(v: View, n: nat, mode: Mode)
    requires Shape(v) && n < |v.inodes|
    ensures Framed(v, Moded(v, n, mode), n)
    ensures forall o: nat :: o < MAXOFF ==> ByteAt(Moded(v, n, mode), n, o) == ByteAt(v, n, o)
  {
    hide Map;
    var v' := Moded(v, n, mode);
    ModedMap(v, n, mode, n, 0);
    forall m, o: nat | 0 <= m < |v.inodes| && o < MAXOFF
      ensures ByteAt(v', m, o) == ByteAt(v, m, o)
    {
      ModedMap(v, n, mode, m, Block512(o));
    }
    forall m: nat, x | m < |v.inodes| && m != n && NodeIs(v, m, x) ensures NodeIs(v', m, x) {
      forall bm: Word ensures Map(v', m, bm) == Map(v, m, bm) {
        ModedMap(v, n, mode, m, bm);
      }
      SameNode(v, v', m, x);
    }
  }

  /** An unused inode with a mode is an empty file or directory. */
  lemma NewNode(v: View, n: nat, mode: Mode)
    requires Shape(v) && n < |v.inodes| && v.inodes[n] == UnusedInode()
    ensures Shape(Moded(v, n, mode))
    ensures mode == Reg ==> NodeIs(Moded(v, n, mode), n, Regular([]))
    ensures mode == Dir ==> NodeIs(Moded(v, n, mode), n, Directory([]))
  {
    hide Map, ByteAt;
    UnusedBytes(v, n);
    ModedFramed(v, n, mode);
    assert Content(Moded(v, n, mode), n) == [];
  }

  lemma SameNode(v: View, v': View, m: nat, x: Node)
    requires Shape(v) && Shape(v') && m < |v.inodes| == |v'.inodes| && v'.inodes[m] == v.inodes[m] && NodeIs(v, m, x)
    requires forall o: nat :: o < MAXOFF ==> ByteAt(v', m, o) == ByteAt(v, m, o)
    requires forall bm: Word :: Map(v', m, bm) == Map(v, m, bm)
    ensures NodeIs(v', m, x)
  {
    hide ByteAt, Map;
    if v.inodes[m].size <= MAXOFF {
      assert Content(v', m) == Content(v, m);
    }
  }

  lemma UnusedBytes(v: View, n: nat)
    requires Shape(v) && n < |v.inodes| && v.inodes[n] == UnusedInode()
    ensures forall o: nat :: o < MAXOFF ==> ByteAt(v, n, o) == 0
  {
  }

  lemma TruncMap(v: View, n: nat, order: seq<Word>, disk': seq<Block>, m: nat, bm: Word)
    requires Released(v, n, order, disk') && m < |v.inodes| && m != n
    ensures var v' := Truncated(v, n, order, disk'); Shape(v') && Map(v', m, bm) == Map(v, m, bm)
  {
    TruncFree(v, n, order, disk');
    NodeKept(v, n, order, disk', m, bm, 1);
    NodeKept(v, n, order, disk', m, bm, 2);
  }

  /** f_trunc leaves the other inodes alone, and directories too. */
  lemma TruncKept(v: View, n: nat, order: seq<Word>, disk': seq<Block>)
    requires Released(v, n, order, disk')
    ensures var v' := Truncated(v, n, order, disk');
      Shape(v') && OthersKept(v, v', n) && InodesKept(v, v', n) && IsFile(v', n, []) && NoHoles(v', n)
  {
    hide Map, ByteAt, Content, TailZero, Released;
    TruncShape(v, n, order, disk');
    TruncFile(v, n, order, disk');
    var v' := Truncated(v, n, order, disk');
    forall m: nat, t: seq<Byte> | m != n && IsDir(v, m, t)
      ensures IsDir(v', m, t)
    {
      forall bm: Word | BLKSIZE * bm < v'.inodes[m].size ensures Map(v', m, bm) != 0 {
        TruncMap(v, n, order, disk', m, bm);
      }
    }
  }

  lemma TruncShape(v: View, n: nat, order: seq<Word>, disk': seq<Block>)
    requires Released(v, n, order, disk')
    ensures Shape(v) && n < |v.inodes| && |disk'| == |v.disk| && Shape(Truncated(v, n, order, disk'))
  {
    TruncFree(v, n, order, disk');
  }

  lemma TruncReleased(v: View, n: nat, disk': seq<Block>)
    requires Owns(v) && n < |v.inodes| && Same(v.disk, disk', TruncOrder(v.disk, v.inodes[n].addr))
    ensures Released(v, n, TruncOrder(v.disk, v.inodes[n].addr), disk')
  {
    hide TruncOrder, Same, Owns, OwnedBy;
    TruncIs(v, n);
  }

  // ------------------------------------------------------------------ the operations

  method SetMode(fs: Fs, n: nat, mode: Mode)
    requires fs.Valid() && n < |fs.inodes|
    modifies fs`inodes
    ensures fs.Valid() && fs.Now() == Moded(old(fs.Now()), n, mode) && Framed(old(fs.Now()), fs.Now(), n)
  {
    hide Owns, Mounted, Framed;
    ViewShape(fs.Now());
    ModedOwns(fs.Now(), n, mode);
    ModedFramed(fs.Now(), n, mode);
    fs.inodes := fs.inodes[n := fs.inodes[n].(mode := mode)];
  }

  lemma ViewShape(v: View)
    requires Owns(v)
    ensures Shape(v)
  {
  }

  method Clear(fs: Fs, n: nat)
    requires fs.Valid() && n < |fs.inodes|
    modifies fs, fs.st, fs.st.sfree
    ensures fs.Valid() && Framed(old(fs.Now()), fs.Now(), n) && IsFile(fs.Now(), n, []) && NoHoles(fs.Now(), n)
    ensures fs.inodes == old(fs.inodes)[n := old(fs.inodes[n]).(addr := seq(SLOTS, _ => 0), size := 0)]
  {
    hide Owns, Mounted, OthersKept, InodesKept, IsFile, NoHoles, TruncOrder, Same, Released, Framed;
    ghost var v := fs.Now();
    ViewShape(v);
    var ok := Trunc(fs, n, false);
    TruncReleased(v, n, fs.st.disk);
    TruncKept(v, n, TruncOrder(v.disk, v.inodes[n].addr), fs.st.disk);
    FramedBy(v, fs.Now(), n);
  }

  /** newfile, and mkdir for a directory: a free inode becomes an empty file or directory. */
  method DoCreate(fs: Fs, n: nat, dir: bool, ghost w: seq<Node>) returns (ghost w': seq<Node>)
    requires fs.Valid() && Stands(fs.Now(), w) && n < |fs.inodes|
    modifies fs`inodes
    ensures fs.Valid() && Stands(fs.Now(), w') && Step(w, Create(n, dir), Nothing, w', fs.Now())
  {
    hide Owns, Mounted, Framed, NodeIs;
    NodeMode(fs.Now(), w, n);
    w' := w;
    if fs.inodes[n].mode == Other {
      ghost var v := fs.Now();
      NewNode(v, n, if dir then Dir else Reg);
      SetMode(fs, n, if dir then Dir else Reg);
      w' := w[n := if dir then Directory([]) else Regular([])];
      StandsStep(v, fs.Now(), w, n, w'[n]);
    }
  }

  lemma NodeMode(v: View, w: seq<Node>, n: nat)
    requires Stands(v, w) && n < |w|
    ensures (v.inodes[n].mode == Other <==> w[n].Unused?) && (v.inodes[n].mode == Dir <==> w[n].Directory?)
    ensures v.inodes[n].mode == Reg <==> w[n].Regular? || w[n].Overlong?
    ensures w[n].Unused? ==> v.inodes[n] == UnusedInode()
    ensures w[n].Regular? ==> IsFile(v, n, w[n].data) && v.inodes[n].size == |w[n].data| <= MAXOFF
    ensures w[n].Directory? ==> IsDir(v, n, w[n].entries) && v.inodes[n].size == |w[n].entries| <= MAXOFF
    ensures w[n].Overlong? ==> v.inodes[n].size > MAXOFF
  {
    assert NodeIs(v, n, w[n]);
  }

  /** i_deref of the last reference to an inode without links. */
  method DoRemove(fs: Fs, n: nat, ghost w: seq<Node>) returns (ghost w': seq<Node>)
    requires fs.Valid() && Stands(fs.Now(), w) && n < |fs.inodes|
    modifies fs, fs.st, fs.st.sfree
    ensures fs.Valid() && Stands(fs.Now(), w') && Step(w, Remove(n), Nothing, w', fs.Now())
  {
    hide Owns, Mounted, Framed, IsFile, NoHoles;
    ghost var v := fs.Now();
    Clear(fs, n);
    ghost var v1 := fs.Now();
    SetMode(fs, n, Other);
    FramedTrans(v, v1, fs.Now(), n);
    w' := w[n := Unused];
    StandsStep(v, fs.Now(), w, n, Unused);
  }

  method DoEmpty(fs: Fs, n: nat, ghost w: seq<Node>) returns (ghost w': seq<Node>)
    requires fs.Valid() && Stands(fs.Now(), w) && n < |fs.inodes|
    modifies fs, fs.st, fs.st.sfree
    ensures fs.Valid() && Stands(fs.Now(), w') && Step(w, Empty(n), Nothing, w', fs.Now())
  {
    hide Owns, Mounted, Framed, IsFile, NoHoles;
    ghost var v := fs.Now();
    NodeMode(v, w, n);
    w' := w;
    if fs.inodes[n].mode == Reg {
      Clear(fs, n);
      w' := w[n := Regular([])];
      StandsStep(v, fs.Now(), w, n, Regular([]));
    }
  }

  method DoWrite(fs: Fs, n: nat, off: nat, data: seq<Byte>, ghost w: seq<Node>) returns (r: Result, ghost w': seq<Node>)
    requires fs.Valid() && Stands(fs.Now(), w) && n < |fs.inodes|
    modifies fs, fs.st, fs.st.sfree
    ensures fs.Valid() && Stands(fs.Now(), w') && Step(w, Write(n, off, data), r, w', fs.Now())
  {
    hide Owns, Mounted, Framed, IsFile, Splice, Files.Wrote, Stopped;
    ghost var v := fs.Now();
    NodeMode(v, w, n);
    r, w' := Nothing, w;
    if fs.inodes[n].mode == Reg {
      var u := new Udata(data, 0, |data|, off);
      Writei(fs, n, u);
      r := Took(u.base, u.error);
      ghost var y := Written(v, fs.Now(), n, off, data, u.base, w[n]);
      w' := w[n := y];
      StandsStep(v, fs.Now(), w, n, y);
    }
  }

  /** What a file is after a write that took k bytes. */
  lemma Written(v: View, v': View, n: nat, off: nat, data: seq<Byte>, k: nat, x: Node) returns (y: Node)
    requires Owns(v) && Owns(v') && k <= |data| && Files.Wrote(v, v', n, off, data[..k]) && NodeIs(v, n, x)
    requires v'.inodes[n].size == if off + k > v.inodes[n].size then off + k else v.inodes[n].size
    requires x.Regular? || x.Overlong?
    ensures Framed(v, v', n) && NodeIs(v', n, y)
    ensures y == if x.Overlong? || off > MAXOFF then Overlong else Regular(Splice(x.data, off, data[..k]))
  {
    hide Owns, ByteAt, Map, Content, TailZero, Splice;
    WroteOthersKept(v, v', n, off, data[..k]);
    WroteInodes(v, v', n, off, data[..k]);
    ViewShape(v');
    FramedBy(v, v', n);
    if x.Overlong? || off > MAXOFF {
      y := Overlong;
    } else {
      y := Regular(Splice(x.data, off, data[..k]));
      WroteFile(v, v', n, off, data[..k], x.data);
    }
  }

  method DoRead(fs: Fs, n: nat, off: nat, count: nat, ghost w: seq<Node>) returns (r: Result)
    requires fs.Valid() && Stands(fs.Now(), w) && n < |fs.inodes|
    modifies fs, fs.st, fs.st.sfree
    ensures fs.Valid() && Stands(fs.Now(), w) && Step(w, Read(n, off, count), r, w, fs.Now())
  {
    hide Owns, Mounted, IsFile, Content;
    ghost var v := fs.Now();
    NodeMode(v, w, n);
    r := Nothing;
    if fs.inodes[n].mode != Other && fs.inodes[n].size <= MAXOFF {
      var u := new Udata(seq(count, _ => 0), 0, count, off);
      Readi(fs, n, u);
      r := Got(u.mem[..u.base]);
      ghost var s := if w[n].Regular? then w[n].data else w[n].entries;
      FileSize(v, n, s);
    }
  }

  method DoLink(fs: Fs, n: nat, oldname: seq<Byte>, newname: seq<Byte>, ino: Option<Word>, ghost w: seq<Node>)
    returns (r: Result, ghost w': seq<Node>)
    requires fs.Valid() && Stands(fs.Now(), w) && n < |fs.inodes| && |newname| >= NAMELEN
    modifies fs, fs.st, fs.st.sfree
    ensures fs.Valid() && Stands(fs.Now(), w') && Step(w, Link(n, oldname, newname, ino), r, w', fs.Now())
  {
    hide Owns, Mounted, Framed, IsDir, OthersKept, Relinked, Component, Stored, Find;
    ghost var v := fs.Now();
    ViewShape(v);
    NodeMode(v, w, n);
    r, w' := Nothing, w;
    if fs.inodes[n].mode == Dir {
      ghost var s := w[n].entries;
      var error := ChLink(fs, n, oldname, newname, ino, false, true, s);
      r := Answer(error);
      ViewShape(fs.Now());
      FramedBy(v, fs.Now(), n);
      w' := w[n := if error != 0 then w[n] else
                   Directory(Relinked(s, Find(s, Component(oldname, NAMELEN), 0),
                                      EntryOf(InoOf(ino), Stored(newname, NAMELEN))))];
      StandsStep(v, fs.Now(), w, n, w'[n]);
    }
  }

  method DoLookUp(fs: Fs, n: nat, name: seq<Byte>, ghost w: seq<Node>) returns (r: Result)
    requires fs.Valid() && Stands(fs.Now(), w) && n < |fs.inodes| && Component(name, NAMELEN) != []
    modifies fs, fs.st, fs.st.sfree
    ensures fs.Valid() && Stands(fs.Now(), w) && Step(w, LookUp(n, name), r, w, fs.Now())
  {
    hide Owns, Mounted, IsDir, Component, Get;
    NodeMode(fs.Now(), w, n);
    r := Nothing;
    if fs.inodes[n].mode == Dir {
      var ino := SrchDir(fs, n, name, w[n].entries);
      r := Found(ino);
    }
  }

  method Apply(fs: Fs, op: Op, ghost w: seq<Node>) returns (r: Result, ghost w': seq<Node>)
    requires fs.Valid() && Stands(fs.Now(), w) && OpOk(op)
    modifies fs, fs.st, fs.st.sfree
    ensures fs.Valid() && Stands(fs.Now(), w') && Step(w, op, r, w', fs.Now())
  {
    hide Owns, Mounted, Stands, Next, Answers;
    NodeCount(fs.Now(), w);
    r, w' := Nothing, w;
    if op.n >= |fs.inodes| {
      return;
    }
    match op {
      case Create(n, dir) => w' := DoCreate(fs, n, dir, w);
      case Remove(n) => w' := DoRemove(fs, n, w);
      case Write(n, off, data) => r, w' := DoWrite(fs, n, off, data, w);
      case Read(n, off, count) => r := DoRead(fs, n, off, count, w);
      case Empty(n) => w' := DoEmpty(fs, n, w);
      case Link(n, oldname, newname, ino) => r, w' := DoLink(fs, n, oldname, newname, ino, w);
      case LookUp(n, name) => r := DoLookUp(fs, n, name, w);
    }
  }

  lemma NodeCount(v: View, w: seq<Node>)
    requires Stands(v, w)
    ensures |w| == |v.inodes|
  {
  }

  // ------------------------------------------------------------------ runs

  /** The device, s_tfree and what the inodes stand for. */
  datatype Moment = Moment(v: View, tfree: int, nodes: seq<Node>)

  ghost predicate Sound(m: Moment) {
    Accounted(m.v, m.tfree) && Stands(m.v, m.nodes)
  }

  function FreshNodes(isize: nat): seq<Node>
    requires 3 <= isize
  {
    seq(8 * (isize - 2), n requires 0 <= n < 8 * (isize - 2) => if n == ROOTINODE then Directory(RootEntries()) else Unused)
  }

  lemma FreshStands(v: View, isize: nat)
    requires 3 <= isize && Owns(v) && |v.inodes| == 8 * (isize - 2)
    requires v.inodes[ROOTINODE].mode == Dir && IsDir(v, ROOTINODE, RootEntries())
    requires forall n :: 0 <= n < |v.inodes| && n != ROOTINODE ==> v.inodes[n] == UnusedInode()
    ensures Stands(v, FreshNodes(isize))
  {
    hide IsDir, RootEntries;
    ViewShape(v);
  }

  /** From a fresh image, whatever is created, written, read, emptied, linked, looked up and removed: every answer
      is what byte sequences and lists of entries would give, and at every moment each block past the inode area is
      free once or owned once, and s_tfree counts the free ones. */
  method Run(fsize: nat, isize: Word, ops: seq<Op>) returns (fs: Fs, results: seq<Result>, ghost moments: seq<Moment>)
    requires 3 <= isize < fsize < 65536 && forall op :: op in ops ==> OpOk(op)
    ensures fs.Valid() && |results| == |ops| && |moments| == |ops| + 1
    ensures moments[0].nodes == FreshNodes(isize) && moments[|ops|].v == fs.Now()
    ensures forall i :: 0 <= i <= |ops| ==> Sound(moments[i])
    ensures forall i :: 0 <= i < |ops| ==> Step(moments[i].nodes, ops[i], results[i], moments[i + 1].nodes, moments[i + 1].v)
  {
    hide Distinct, InRange, Owns, Mounted, IsDir, Step, Accounted, Stands, RootEntries;
    fs := MkfsAndMount(fsize, isize);
    FreshStands(fs.Now(), isize);
    Consequences(fs);
    ghost var w := FreshNodes(isize);
    results, moments := [], [Moment(fs.Now(), fs.st.tfree, w)];
    for i := 0 to |ops|
      invariant fs.Valid() && fresh(fs) && fresh(fs.st) && fresh(fs.st.sfree) && Stands(fs.Now(), w)
      invariant |results| == i && |moments| == i + 1 && moments[i].v == fs.Now() && moments[i].nodes == w
      invariant moments[0].nodes == FreshNodes(isize)
      invariant forall j :: 0 <= j <= i ==> Sound(moments[j])
      invariant forall j :: 0 <= j < i ==> Step(moments[j].nodes, ops[j], results[j], moments[j + 1].nodes, moments[j + 1].v)
    {
      var r;
      r, w := Apply(fs, ops[i], w);
      Consequences(fs);
      results, moments := results + [r], moments + [Moment(fs.Now(), fs.st.tfree, w)];
    }
  }

  /** An inode that no operation names stays as it is. */
  lemma {:induction false} Unnamed(moments: seq<Moment>, ops: seq<Op>, results: seq<Result>, n: nat, i: nat)
    requires i <= |ops| == |results| && |moments| == |ops| + 1 && n < |moments[0].nodes|
    requires forall j :: 0 <= j < i ==>
      Step(moments[j].nodes, ops[j], results[j], moments[j + 1].nodes, moments[j + 1].v) && ops[j].n != n
    ensures |moments[i].nodes| == |moments[0].nodes| && moments[i].nodes[n] == moments[0].nodes[n]
    decreases i
  {
    hide Next, Answers;
    if i > 0 {
      Unnamed(moments, ops, results, n, i - 1);
      assert Step(moments[i - 1].nodes, ops[i - 1], results[i - 1], moments[i].nodes, moments[i].v);
    }
  }

  // ------------------------------------------------------------------ directories as maps

  /** A directory that stands for the map. */
  ghost predicate Names(s: seq<Byte>, m: map<seq<Byte>, Word>) {
    && WholeEntries(s) && Unique(s) && [] !in m
    && forall x :: x != [] ==> Get(s, x) == if x in m then Some(m[x]) else None
  }

  /** A link, an unlink or a rename. */
  function Rename(m: map<seq<Byte>, Word>, old': seq<Byte>, new': seq<Byte>, ino: Word): map<seq<Byte>, Word> {
    if new' == [] then m - {old'} else (m - {old'})[new' := ino]
  }

  lemma NamesLink(s: seq<Byte>, m: map<seq<Byte>, Word>, oldname: seq<Byte>, newname: seq<Byte>, ino: Option<Word>)
    requires Names(s, m) && |newname| >= NAMELEN && LinkError(s, oldname, newname, ino.Some?, false, true) == 0
    requires var old', new' := Component(oldname, NAMELEN), Component(newname, NAMELEN);
      new' == [] || new' == old' || new' !in m
    ensures
      var old', new' := Component(oldname, NAMELEN), Component(newname, NAMELEN);
      Names(Relinked(s, Find(s, old', 0), EntryOf(InoOf(ino), Stored(newname, NAMELEN))), Rename(m, old', new', InoOf(ino)))
  {
    hide Relinked, EntryOf, Stored, Unique, NameAt;
    var old', new' := Component(oldname, NAMELEN), Component(newname, NAMELEN);
    var s' := Relinked(s, Find(s, old', 0), EntryOf(InoOf(ino), Stored(newname, NAMELEN)));
    var m' := Rename(m, old', new', InoOf(ino));
    LinkIsUpdate(s, oldname, newname, InoOf(ino), [1]);
    forall x | x != [] ensures Get(s', x) == if x in m' then Some(m'[x]) else None {
      LinkIsUpdate(s, oldname, newname, InoOf(ino), x);
    }
  }

  /** What the links made so far in directory n leave of its map. */
  function Bindings(m: map<seq<Byte>, Word>, ops: seq<Op>, results: seq<Result>, n: nat): map<seq<Byte>, Word>
    requires |results| == |ops|
    decreases |ops|
  {
    if ops == [] then m else
      var k := |ops| - 1;
      var before, op := Bindings(m, ops[..k], results[..k], n), ops[k];
      if op.Link? && op.n == n && results[k] == Answer(0)
      then Rename(before, Component(op.oldname, NAMELEN), Component(op.newname, NAMELEN), InoOf(op.ino))
      else before
  }

  /** As its callers take care of: the directory stays one, and no name is linked that is in use. */
  predicate Careful(m: map<seq<Byte>, Word>, ops: seq<Op>, results: seq<Result>, n: nat, i: nat)
    requires i < |ops| == |results|
  {
    match ops[i]
    case Remove(k) => k != n
    case Link(k, oldname, newname, _) =>
      var new' := Component(newname, NAMELEN);
      k == n ==>
        && |newname| >= NAMELEN
        && (new' == [] || new' == Component(oldname, NAMELEN) || new' !in Bindings(m, ops[..i], results[..i], n))
    case _ => true
  }

  lemma MapStep(s: seq<Byte>, m: map<seq<Byte>, Word>, op: Op, r: Result, v: View)
    requires Names(s, m) && !op.Remove? && Answers(Directory(s), op, r, v)
    requires op.Link? ==> |op.newname| >= NAMELEN
    requires op.Link? ==>
      var new' := Component(op.newname, NAMELEN); new' == [] || new' == Component(op.oldname, NAMELEN) || new' !in m
    ensures var y := Next(Directory(s), op, r);
      && y.Directory?
      && Names(y.entries, if op.Link? && r == Answer(0)
                          then Rename(m, Component(op.oldname, NAMELEN), Component(op.newname, NAMELEN), InoOf(op.ino)) else m)
  {
    hide Names, Relinked, Component, Stored, EntryOf;
    if op.Link? && r == Answer(0) {
      NamesLink(s, m, op.oldname, op.newname, op.ino);
    }
  }

  /** A directory is a finite map through any run: links, unlinks and renames update it, and every lookup answers
      what the map has. */
  lemma {:induction false} DirectoryIsMap(moments: seq<Moment>, ops: seq<Op>, results: seq<Result>, n: nat,
                                          m: map<seq<Byte>, Word>, i: nat)
    requires i <= |ops| == |results| && |moments| == |ops| + 1
    requires n < |moments[0].nodes| && moments[0].nodes[n].Directory? && Names(moments[0].nodes[n].entries, m)
    requires forall j :: 0 <= j < i ==> Step(moments[j].nodes, ops[j], results[j], moments[j + 1].nodes, moments[j + 1].v)
    requires forall j :: 0 <= j < i ==> Careful(m, ops, results, n, j)
    ensures |moments[i].nodes| == |moments[0].nodes| && moments[i].nodes[n].Directory?
    ensures Names(moments[i].nodes[n].entries, Bindings(m, ops[..i], results[..i], n))
    decreases i
  {
    if i > 0 {
      DirectoryIsMap(moments, ops, results, n, m, i - 1);
      assert Step(moments[i - 1].nodes, ops[i - 1], results[i - 1], moments[i].nodes, moments[i].v);
      assert ops[..i][..i - 1] == ops[..i - 1] && results[..i][..i - 1] == results[..i - 1];
      assert Careful(m, ops, results, n, i - 1);
      if ops[i - 1].n == n {
        var before := Bindings(m, ops[..i - 1], results[..i - 1], n);
        MapStep(moments[i - 1].nodes[n].entries, before, ops[i - 1], results[i - 1], moments[i].v);
      }
    }
  }

  /** Looking up a name in such a run finds the inode number it is bound to at that moment, or nothing. */
  lemma LookUpFinds(moments: seq<Moment>, ops: seq<Op>, results: seq<Result>, n: nat, m: map<seq<Byte>, Word>, i: nat)
    requires i < |ops| == |results| && |moments| == |ops| + 1
    requires n < |moments[0].nodes| && moments[0].nodes[n].Directory? && Names(moments[0].nodes[n].entries, m)
    requires forall j :: 0 <= j <= i ==> Step(moments[j].nodes, ops[j], results[j], moments[j + 1].nodes, moments[j + 1].v)
    requires forall j :: 0 <= j < i ==> Careful(m, ops, results, n, j)
    requires ops[i].LookUp? && ops[i].n == n && OpOk(ops[i])
    ensures
      var x, now := Component(ops[i].name, NAMELEN), Bindings(m, ops[..i], results[..i], n);
      results[i] == Found(if x in now then Some(now[x]) else None)
  {
    hide Names, Get, Component;
    DirectoryIsMap(moments, ops, results, n, m, i);
    assert Step(moments[i].nodes, ops[i], results[i], moments[i + 1].nodes, moments[i + 1].v);
    NamesGet(moments[i].nodes[n].entries, Bindings(m, ops[..i], results[..i], n), Component(ops[i].name, NAMELEN));
  }

  lemma NamesGet(s: seq<Byte>, m: map<seq<Byte>, Word>, x: seq<Byte>)
    requires Names(s, m) && x != []
    ensures Get(s, x) == if x in m then Some(m[x]) else None
  {
  }

  /** The root of a fresh image. */
  lemma RootNames()
    ensures Names(RootEntries(), map[[46] := 1, [46, 46] := 1])
  {
    var s := RootEntries();
    assert Count(s) == 2;
    var a: seq<Byte>, b: seq<Byte> := [46] + seq(29, _ => 0), [46, 46] + seq(28, _ => 0);
    assert s[2..32] == a && s[34..64] == b;
    ZeroName(a[1..], 29);
    ZeroName(b[1..][1..], 28);
    assert NameAt(s, 0) == Component(a, 30) == [46] && Component(b[1..], 29) == [46];
    assert NameAt(s, 1) == [46, 46];
  }
}
