/** Directories: files of 32-byte entries that stand for a finite map from names to inode numbers
    (srch_dir, ch_link and namecomp in Kernel/filesys.c). */
module Directories {
  import opened Blocks
  import opened FreeList
  import opened Ownership
  import opened BlockMap
  import opened Files

  const NAMELEN: nat := 30
  const DIRLEN: nat := 32
  const SLASH: Byte := 47

  const EACCES: nat := 13
  const EEXIST: nat := 17
  const EROFS: nat := 30
  const ENOENT: nat := 2

  datatype Option<T> = None | Some(value: T)

  /** Character i of a C string; the string ends at its first NUL, and at the end of the sequence. */
  function Char(s: seq<Byte>, i: nat): Byte {
    if i < |s| then s[i] else 0
  }

  /** The name a C string or a stored name stands for: up to a NUL or a slash, and at most k characters. */
  function Component(s: seq<Byte>, k: nat): (c: seq<Byte>)
    ensures |c| <= k
  {
    if k == 0 || Char(s, 0) == 0 || Char(s, 0) == SLASH then [] else [s[0]] + Component(s[1..], k - 1)
  }

  /** Two names agree just when neither has a character the other lacks. */
  lemma {:induction false} ComponentPrefix(s: seq<Byte>, t: seq<Byte>, k: nat, i: nat)
    requires i <= k && i <= |s| && i <= |t| && s[..i] == t[..i]
    requires forall j :: 0 <= j < i ==> s[j] != 0 && s[j] != SLASH
    ensures Component(s, k) == Component(t, k) <==> Component(s[i..], k - i) == Component(t[i..], k - i)
    decreases i
  {
    if i == 0 {
      assert s[0..] == s && t[0..] == t;
    } else {
      assert s[0] == s[..i][0] == t[..i][0] == t[0];
      assert s[1..][..i - 1] == s[..i][1..] == t[..i][1..] == t[1..][..i - 1];
      ComponentPrefix(s[1..], t[1..], k - 1, i - 1);
      assert s[1..][i - 1..] == s[i..] && t[1..][i - 1..] == t[i..];
      var a, b := Component(s[1..], k - 1), Component(t[1..], k - 1);
      assert [s[0]] + a == [t[0]] + b <==> a == b by {
        assert ([s[0]] + a)[1..] == a && ([t[0]] + b)[1..] == b;
      }
    }
  }

  /** namecomp: do a path component and a stored name agree? */
  method NameComp(n1: seq<Byte>, n2: seq<Byte>) returns (same: bool)
    requires |n2| == NAMELEN
    ensures same <==> Component(n1, NAMELEN) == Component(n2, NAMELEN)
  {
    var n, i := NAMELEN, 0;
    while Char(n1, i) != 0 && Char(n1, i) != SLASH
      invariant n == NAMELEN - i && 0 < n && i <= |n1|
      invariant n1[..i] == n2[..i]
      invariant forall j :: 0 <= j < i ==> n1[j] != 0 && n1[j] != SLASH
      decreases n
    {
      ComponentPrefix(n1, n2, NAMELEN, i);
      if n1[i] != n2[i] {
        assert Component(n1[i..], n)[0] == n1[i];
        assert Component(n2[i..], n) != [] ==> Component(n2[i..], n)[0] == n2[i];
        return false;
      }
      i := i + 1;
      n := n - 1;
      if n == 0 {
        ComponentPrefix(n1, n2, NAMELEN, i);
        return true;
      }
    }
    ComponentPrefix(n1, n2, NAMELEN, i);
    return n2[i] == 0 || n2[i] == SLASH;
  }

  // ---------------------------------------------------------------- entries

  predicate WholeEntries(s: seq<Byte>) {
    |s| % DIRLEN == 0
  }

  function Count(s: seq<Byte>): nat {
    |s| / DIRLEN
  }

  function InoAt(s: seq<Byte>, i: nat): Word
    requires i < Count(s)
  {
    var lo: int, hi: int := s[DIRLEN * i], s[DIRLEN * i + 1];
    lo + 256 * hi
  }

  function NameAt(s: seq<Byte>, i: nat): seq<Byte>
    requires i < Count(s)
  {
    Component(s[DIRLEN * i + 2..DIRLEN * i + DIRLEN], NAMELEN)
  }

  /** The first entry from i on that has the name, or the number of entries. */
  function Find(s: seq<Byte>, name: seq<Byte>, i: nat): (k: nat)
    requires i <= Count(s)
    ensures i <= k <= Count(s)
    ensures k < Count(s) ==> NameAt(s, k) == name
    ensures forall j :: i <= j < k ==> NameAt(s, j) != name
    decreases Count(s) - i
  {
    if i == Count(s) || NameAt(s, i) == name then i else Find(s, name, i + 1)
  }

  /** The map a directory stands for. */
  function Get(s: seq<Byte>, name: seq<Byte>): Option<Word> {
    var k := Find(s, name, 0);
    if k < Count(s) then Some(InoAt(s, k)) else None
  }

  /** No name is used twice; unused entries have the empty name. */
  ghost predicate Unique(s: seq<Byte>) {
    forall i, j :: 0 <= i < j < Count(s) && NameAt(s, i) == NameAt(s, j) ==> NameAt(s, i) == []
  }

  /** A stored name: the first 30 bytes of a buffer with everything after the first NUL cleared. */
  function Stored(buf: seq<Byte>, k: nat): (r: seq<Byte>)
    requires k <= |buf|
    ensures |r| == k
  {
    if k == 0 then [] else if buf[0] == 0 then seq(k, _ => 0) else [buf[0]] + Stored(buf[1..], k - 1)
  }

  /** A name is stored under itself. */
  lemma {:induction false} StoredComponent(buf: seq<Byte>, k: nat)
    requires k <= |buf|
    ensures Component(Stored(buf, k), k) == Component(buf, k)
    decreases k
  {
    if k > 0 && buf[0] != 0 {
      StoredComponent(buf[1..], k - 1);
      assert Stored(buf, k)[1..] == Stored(buf[1..], k - 1);
    }
  }

  function EntryOf(ino: Word, name: seq<Byte>): (e: seq<Byte>)
    requires |name| == NAMELEN
    ensures |e| == DIRLEN
  {
    [ino % 256, ino / 256] + name
  }

  /** A file's size is rounded up to whole blocks after a link. */
  function RoundUp(s: seq<Byte>): (r: seq<Byte>)
    ensures |r| % BLKSIZE == 0
  {
    if |s| % BLKSIZE == 0 then s else s + seq(BLKSIZE - |s| % BLKSIZE, _ => 0)
  }

  /** What ch_link leaves in a directory that held s, when it puts an entry at index k. */
  function Relinked(s: seq<Byte>, k: nat, e: seq<Byte>): seq<Byte> {
    RoundUp(Splice(s, DIRLEN * k, e))
  }

  lemma {:induction false} ZeroName(s: seq<Byte>, k: nat)
    requires |s| > 0 && s[0] == 0
    ensures Component(s, k) == []
  {
  }

  lemma RelinkedBytes(s: seq<Byte>, k: nat, e: seq<Byte>)
    requires WholeEntries(s) && k <= Count(s) && |e| == DIRLEN
    ensures var s' := Relinked(s, k, e);
      && WholeEntries(s') && |s'| >= |s| && |s'| >= DIRLEN * k + DIRLEN
      && forall j :: 0 <= j < |s'| ==>
           s'[j] == if DIRLEN * k <= j < DIRLEN * k + DIRLEN then e[j - DIRLEN * k] else if j < |s| then s[j] else 0
  {
    SpliceIs(s, DIRLEN * k, e);
  }

  /** The 32 bytes of an entry. */
  function Entry(s: seq<Byte>, i: nat): seq<Byte>
    requires i < Count(s)
  {
    s[DIRLEN * i..DIRLEN * i + DIRLEN]
  }

  lemma RelinkedEntry(s: seq<Byte>, k: nat, e: seq<Byte>, i: nat)
    requires WholeEntries(s) && k <= Count(s) && |e| == DIRLEN && i < Count(Relinked(s, k, e))
    ensures var s' := Relinked(s, k, e);
      && WholeEntries(s') && Count(s') >= Count(s) && Count(s') > k
      && Entry(s', i) == if i == k then e else if i < Count(s) then Entry(s, i) else seq(DIRLEN, _ => 0)
  {
    hide Relinked;
    RelinkedBytes(s, k, e);
  }

  lemma EntryParts(s: seq<Byte>, i: nat, e: seq<Byte>)
    requires i < Count(s) && Entry(s, i) == e
    ensures |e| == DIRLEN && NameAt(s, i) == Component(e[2..], NAMELEN)
    ensures InoAt(s, i) == var lo: int, hi: int := e[0], e[1]; lo + 256 * hi
  {
    assert e[2..] == s[DIRLEN * i + 2..DIRLEN * i + DIRLEN];
  }

  /** Entry by entry: index k is replaced or appended, and what rounding adds is unused. */
  lemma RelinkedEntries(s: seq<Byte>, k: nat, ino: Word, name: seq<Byte>, i: nat)
    requires WholeEntries(s) && k <= Count(s) && |name| == NAMELEN
    requires i < Count(Relinked(s, k, EntryOf(ino, name)))
    ensures var s' := Relinked(s, k, EntryOf(ino, name));
      && WholeEntries(s') && Count(s') >= Count(s) && Count(s') > k
      && (i == k ==> NameAt(s', i) == Component(name, NAMELEN) && InoAt(s', i) == ino)
      && (i != k && i < Count(s) ==> NameAt(s', i) == NameAt(s, i) && InoAt(s', i) == InoAt(s, i))
      && (i != k && i >= Count(s) ==> NameAt(s', i) == [])
  {
    hide Relinked, Component, InoAt, NameAt, Entry;
    var e := EntryOf(ino, name);
    var s' := Relinked(s, k, e);
    RelinkedEntry(s, k, e, i);
    EntryParts(s', i, Entry(s', i));
    if i == k {
      assert e[2..] == name;
    } else if i < Count(s) {
      EntryParts(s, i, Entry(s, i));
    } else {
      ZeroName(Entry(s', i)[2..], NAMELEN);
    }
  }

  /** In a directory without duplicates the map is what the entries say. */
  lemma GetIs(s: seq<Byte>, name: seq<Byte>, k: nat)
    requires Unique(s) && name != [] && k < Count(s) && NameAt(s, k) == name
    ensures Find(s, name, 0) == k && Get(s, name) == Some(InoAt(s, k))
  {
  }

  /** Putting an entry in place of one called c: the map loses c and gains the new name. */
  lemma RelinkedMap(s: seq<Byte>, k: nat, ino: Word, name: seq<Byte>, x: seq<Byte>)
    requires WholeEntries(s) && Unique(s) && k <= Count(s) && |name| == NAMELEN && x != []
    requires var c := Component(name, NAMELEN);
      c == [] || (k < Count(s) && NameAt(s, k) == c) || Get(s, c) == None
    ensures
      var s', c := Relinked(s, k, EntryOf(ino, name)), Component(name, NAMELEN);
      && WholeEntries(s') && Unique(s')
      && Get(s', x) == if x == c then Some(ino)
                       else if k < Count(s) && x == NameAt(s, k) then None else Get(s, x)
  {
    hide Relinked, EntryOf, Component;
    var s', c := Relinked(s, k, EntryOf(ino, name)), Component(name, NAMELEN);
    RelinkedBytes(s, k, EntryOf(ino, name));
    RelinkedEntries(s, k, ino, name, 0);
    forall i, j | 0 <= i < j < Count(s') && NameAt(s', i) == NameAt(s', j)
      ensures NameAt(s', i) == []
    {
      RelinkedEntries(s, k, ino, name, i);
      RelinkedEntries(s, k, ino, name, j);
    }
    if x == c {
      RelinkedEntries(s, k, ino, name, k);
      GetIs(s', x, k);
    } else {
      var i := Find(s', x, 0);
      if i < Count(s') {
        RelinkedEntries(s, k, ino, name, i);
        GetIs(s, x, i);
      } else {
        var j := Find(s, x, 0);
        if j < Count(s) && j != k {
          RelinkedEntries(s, k, ino, name, j);
        }
      }
    }
  }

  // ---------------------------------------------------------------- ch_link

  /** Every block of the directory up to its end is there. */
  ghost predicate NoHoles(v: View, n: nat) {
    Shape(v) && n < |v.inodes| &&
    forall bm: Word :: BLKSIZE * bm < v.inodes[n].size ==> Map(v, n, bm) != 0
  }

  /** Directory n holds the entries s. */
  ghost predicate IsDir(v: View, n: nat, s: seq<Byte>) {
    IsFile(v, n, s) && WholeEntries(s) && NoHoles(v, n)
  }

  /** Everything about the inodes other than n that a writer of n leaves alone. */
  ghost predicate InodesKept(v: View, v': View, n: nat) {
    && |v'.inodes| == |v.inodes|
    && (forall m :: 0 <= m < |v.inodes| ==>
          v'.inodes[m].mode == v.inodes[m].mode && (m != n ==> v'.inodes[m] == v.inodes[m]))
    && (forall m: nat, t: seq<Byte> :: m != n && IsDir(v, m, t) ==> IsDir(v', m, t))
  }

  lemma InodesRefl(v: View, n: nat)
    ensures InodesKept(v, v, n)
  {
  }

  lemma WroteInodes(v: View, v': View, n: nat, off: nat, data: seq<Byte>)
    requires Wrote(v, v', n, off, data)
    ensures InodesKept(v, v', n)
  {
    hide ByteAt, TailZero, Content;
    forall m: nat, t: seq<Byte> | m != n && IsDir(v, m, t)
      ensures IsDir(v', m, t)
    {
      WroteOthersKept(v, v', n, off, data);
    }
  }

  lemma ResizedInodes(v: View, v': View, n: nat, size: nat)
    requires InodesKept(v, v', n) && Owns(v') && n < |v'.inodes|
    ensures InodesKept(v, Resized(v', n, size), n)
  {
    hide ByteAt, TailZero, Content, Map, Owns;
    ResizedOwns(v', n, size, 0);
    WroteInodes(v', Resized(v', n, size), n, 0, []);
    hide IsDir;
  }

  lemma DirSize(v: View, n: nat, s: seq<Byte>)
    requires IsDir(v, n, s)
    ensures IsFile(v, n, s) && WholeEntries(s) && n < |v.inodes| && v.inodes[n].size == |s| <= MAXOFF
  {
  }

  /** A failed write leaves a directory as it was. */
  lemma DirUnwritten(v: View, v': View, n: nat, s: seq<Byte>, off: nat)
    requires IsDir(v, n, s) && Wrote(v, v', n, off, []) && v'.inodes[n].size == |s|
    ensures IsDir(v', n, s) && OthersKept(v, v', n)
  {
    WroteOthersKept(v, v', n, off, []);
    WroteContent(v, v', n, 0, []);
    assert Splice(s, 0, []) == s;
  }

  /** Writing one entry and rounding the size up to a whole block. */
  lemma DirWritten(v: View, v': View, n: nat, s: seq<Byte>, k: nat, e: seq<Byte>, r: seq<Byte>)
    requires IsDir(v, n, s) && k <= Count(s) && |e| == DIRLEN && Wrote(v, v', n, DIRLEN * k, e)
    requires n < |v'.inodes| && v'.inodes[n].size == if DIRLEN * k + DIRLEN > |s| then DIRLEN * k + DIRLEN else |s|
    requires r == Relinked(s, k, e)
    ensures |r| <= MAXOFF && IsDir(Resized(v', n, |r|), n, r) && OthersKept(v, Resized(v', n, |r|), n)
  {
    hide IsFile, Wrote, OthersKept, NoHoles, Splice, RoundUp;
    DirSize(v, n, s);
    WroteOthersKept(v, v', n, DIRLEN * k, e);
    WroteIn(v, v', n, DIRLEN * k, e);
    WroteFile(v, v', n, DIRLEN * k, e, s);
    DirRounded(v', n, Splice(s, DIRLEN * k, e));
    OthersTrans(v, v', Resized(v', n, |r|), n);
    DirMapped(v, v', n, s, k, e);
    RelinkedBytes(s, k, e);
  }

  lemma WroteIn(v: View, v': View, n: nat, off: nat, data: seq<Byte>)
    requires Wrote(v, v', n, off, data) && data != []
    ensures off + |data| <= MAXOFF && Shape(v') && |v'.inodes| == |v.inodes| && n < |v.inodes|
  {
  }

  lemma DirMapped(v: View, v': View, n: nat, s: seq<Byte>, k: nat, e: seq<Byte>)
    requires IsDir(v, n, s) && k <= Count(s) && |e| == DIRLEN && Wrote(v, v', n, DIRLEN * k, e)
    ensures NoHoles(Resized(v', n, |Relinked(s, k, e)|), n)
  {
    hide ByteAt;
    DirSize(v, n, s);
    SpliceIs(s, DIRLEN * k, e);
    var r := Splice(s, DIRLEN * k, e);
    var v2 := Resized(v', n, |RoundUp(r)|);
    ResizedMap(v', n, |RoundUp(r)|, 0);
    forall bm: Word | BLKSIZE * bm < |RoundUp(r)|
      ensures Map(v2, n, bm) != 0
    {
      RoundedBlock(|r|, bm);
      if BLKSIZE * bm < |s| {
        assert Map(v, n, bm) != 0;
      } else {
        assert Touched(DIRLEN * k, |e|, bm);
      }
      assert Map(v', n, bm) != 0;
      assert v2.inodes[n].addr == v'.inodes[n].addr;
    }
  }

  /** A block that starts below the rounded size starts below the size. */
  lemma RoundedBlock(size: nat, bm: nat)
    requires BLKSIZE * bm < if size % BLKSIZE == 0 then size else size + BLKSIZE - size % BLKSIZE
    ensures BLKSIZE * bm < size
  {
  }

  lemma DirRounded(v: View, n: nat, r: seq<Byte>)
    requires IsFile(v, n, r)
    ensures |RoundUp(r)| <= MAXOFF
    ensures IsFile(Resized(v, n, |RoundUp(r)|), n, RoundUp(r)) && OthersKept(v, Resized(v, n, |RoundUp(r)|), n)
  {
    hide Map, ByteAt, Owns;
    var size := |RoundUp(r)|;
    assert |r| <= MAXOFF && MAXOFF % BLKSIZE == 0;
    var v' := Resized(v, n, size);
    forall m: nat, o: nat | m < |v.inodes| && o < MAXOFF
      ensures ByteAt(v', m, o) == ByteAt(v, m, o)
    {
      ResizedByte(v, n, size, m, o);
    }
    RoundedSize(|r|);
    assert Content(v', n) == RoundUp(r);
  }

  lemma RoundedSize(size: nat)
    requires size <= MAXOFF
    ensures size % BLKSIZE != 0 ==> size + (BLKSIZE - size % BLKSIZE) <= MAXOFF
  {
  }

  lemma ResizedByte(v: View, n: nat, size: nat, m: nat, o: nat)
    requires Shape(v) && n < |v.inodes| && m < |v.inodes| && o < MAXOFF
    ensures Shape(Resized(v, n, size)) && ByteAt(Resized(v, n, size), m, o) == ByteAt(v, m, o)
  {
    assert Resized(v, n, size).inodes[m].addr == v.inodes[m].addr;
    assert Map(Resized(v, n, size), m, Block512(o)) == Map(v, m, Block512(o));
  }

  /** ch_link's search: read entry after entry until one has the name or the directory ends.  On return
      u.count is 0 just when it ended. */
  method Search(fs: Fs, n: nat, name: seq<Byte>, u: Udata, ghost s: seq<Byte>)
    requires fs.Valid() && IsDir(fs.Now(), n, s)
    requires |u.mem| == DIRLEN && u.error == 0
    modifies fs, fs.st, fs.st.sfree, u
    ensures fs.Valid() && fs.Now() == old(fs.Now())
    ensures |u.mem| == DIRLEN && u.error == 0
    ensures var k := Find(s, Component(name, NAMELEN), 0);
      if k == Count(s) then u.count == 0 && u.offset == |s| else u.count != 0 && u.offset == DIRLEN * k + DIRLEN
  {
    hide IsFile, Owns, Mounted, NoHoles, Component, Content, InoAt;
    ghost var v, want := fs.Now(), Component(name, NAMELEN);
    DirSize(v, n, s);
    FileSize(v, n, s);
    u.offset := 0;
    ghost var i := 0;
    while true
      invariant fs.Valid() && fs.Now() == v && |u.mem| == DIRLEN && u.error == 0
      invariant i <= Count(s) && u.offset == DIRLEN * i
      invariant Find(s, want, 0) == Find(s, want, i)
      decreases Count(s) - i
    {
      u.count := DIRLEN;
      u.base := 0;
      ghost var mem := u.mem;
      Readi(fs, n, u);
      if u.count == 0 {
        break;
      }
      EntryRead(mem, s, i);
      var same := NameComp(name, u.mem[2..DIRLEN]);
      if same {
        break;
      }
      i := i + 1;
    }
  }

  /** A full read at an entry's offset fetches that entry. */
  lemma EntryRead(mem: seq<Byte>, s: seq<Byte>, i: nat)
    requires |mem| == DIRLEN && i < Count(s)
    ensures var e := Patch(mem, 0, s[DIRLEN * i..DIRLEN * i + DIRLEN]);
      e == Entry(s, i) && NameAt(s, i) == Component(e[2..DIRLEN], NAMELEN)
  {
    EntryParts(s, i, Entry(s, i));
    assert Entry(s, i)[2..DIRLEN] == Entry(s, i)[2..];
  }

  /** memcpy of the new name into the entry, then clearing what follows its first NUL. */
  method PadName(newname: seq<Byte>) returns (name: seq<Byte>)
    requires |newname| >= NAMELEN
    ensures name == Stored(newname, NAMELEN)
  {
    name := newname[..NAMELEN];
    var i := 0;
    while i < NAMELEN && name[i] != 0
      invariant i <= NAMELEN && forall j :: 0 <= j < i ==> newname[j] != 0
    {
      i := i + 1;
    }
    ghost var at := i;
    while i < NAMELEN
      invariant at <= i <= NAMELEN && |name| == NAMELEN
      invariant name[..at] == newname[..at] && forall j :: at <= j < i ==> name[j] == 0
    {
      name := name[i := 0];
      i := i + 1;
    }
    StoredAt(newname, NAMELEN, at);
  }

  lemma {:induction false} StoredAt(buf: seq<Byte>, k: nat, at: nat)
    requires at <= k <= |buf| && (forall j :: 0 <= j < at ==> buf[j] != 0) && (at < k ==> buf[at] == 0)
    ensures Stored(buf, k) == buf[..at] + seq(k - at, _ => 0)
    decreases at
  {
    if at > 0 {
      StoredAt(buf[1..], k - 1, at - 1);
      assert buf[..at] == [buf[0]] + buf[1..][..at - 1];
    }
  }

  /** The writing half of ch_link: put the entry at index k and round the size up. */
  method Put(fs: Fs, n: nat, u: Udata, ghost k: nat, ghost s: seq<Byte>)
    requires fs.Valid() && IsDir(fs.Now(), n, s) && k <= Count(s)
    requires |u.mem| == DIRLEN && u.error == 0 && u.offset == DIRLEN * k
    modifies fs, fs.st, fs.st.sfree, u
    ensures fs.Valid() && OthersKept(old(fs.Now()), fs.Now(), n) && InodesKept(old(fs.Now()), fs.Now(), n)
    ensures u.error == 0 ==> IsDir(fs.Now(), n, Relinked(s, k, old(u.mem)))
    ensures u.error != 0 ==> k == Count(s) && u.error in {ENOSPC, EFBIG} && IsDir(fs.Now(), n, s)
  {
    hide IsDir, Owns, Mounted, OthersKept, InodesKept, Wrote, Relinked, Stopped;
    ghost var v, e := fs.Now(), u.mem;
    DirSize(v, n, s);
    u.count := DIRLEN;
    u.base := 0;
    Writei(fs, n, u);
    ghost var v1 := fs.Now();
    WroteInodes(v, v1, n, DIRLEN * k, e[..u.base]);
    PutAllOrNone(v, v1, n, s, k, e, u.base, u.error);
    if u.error != 0 {
      return;
    }
    assert e[..DIRLEN] == e;
    DirWritten(v, v1, n, s, k, e, Relinked(s, k, e));
    RelinkedSize(s, k, e);
    ResizedOwns(v1, n, |Relinked(s, k, e)|, 0);
    ResizedInodes(v, v1, n, |Relinked(s, k, e)|);
    if fs.inodes[n].size % BLKSIZE != 0 {
      fs.inodes := fs.inodes[n := fs.inodes[n].(size := fs.inodes[n].size + (BLKSIZE - fs.inodes[n].size % BLKSIZE))];
    }
    assert fs.Now() == Resized(v1, n, |Relinked(s, k, e)|);
  }

  lemma RelinkedSize(s: seq<Byte>, k: nat, e: seq<Byte>)
    requires WholeEntries(s) && k <= Count(s) && |e| == DIRLEN
    ensures var size := if DIRLEN * k + DIRLEN > |s| then DIRLEN * k + DIRLEN else |s|;
      |Relinked(s, k, e)| == if size % BLKSIZE == 0 then size else size + (BLKSIZE - size % BLKSIZE)
  {
    SpliceIs(s, DIRLEN * k, e);
  }

  /** An entry does not cross a block boundary, so it is written as a whole or not at all, and replacing
      an entry cannot run out of space. */
  lemma PutAllOrNone(v: View, v': View, n: nat, s: seq<Byte>, k: nat, e: seq<Byte>, w: nat, error: nat)
    requires IsDir(v, n, s) && k <= Count(s) && |e| == DIRLEN && w <= DIRLEN
    requires Wrote(v, v', n, DIRLEN * k, e[..w]) && n < |v'.inodes|
    requires 0 < w < DIRLEN ==> (DIRLEN * k + w) % BLKSIZE == 0
    requires if w == DIRLEN then error == 0 else Stopped(v', n, DIRLEN * k + w, error)
    requires v'.inodes[n].size == if DIRLEN * k + w > |s| then DIRLEN * k + w else |s|
    ensures error == 0 <==> w == DIRLEN
    ensures error != 0 ==> w == 0 && k == Count(s) && error in {ENOSPC, EFBIG} && IsDir(v', n, s) && OthersKept(v, v', n)
  {
    hide ByteAt;
    DirSize(v, n, s);
    if w < DIRLEN {
      assert w == 0;
      assert e[..0] == [];
      DirUnwritten(v, v', n, s, DIRLEN * k);
    }
  }

  /** The error ch_link reports before it writes, or 0. */
  function LinkError(s: seq<Byte>, oldname: seq<Byte>, newname: seq<Byte>, hasInode: bool,
                     readOnly: bool, mayWrite: bool): nat
  {
    if readOnly then EROFS
    else if !mayWrite then EACCES
    else if Char(newname, 0) == 0 && hasInode then EEXIST
    else if Find(s, Component(oldname, NAMELEN), 0) == Count(s) && Char(oldname, 0) != 0 then ENOENT
    else 0
  }

  /** The errors in terms of the map: read-only and permission first, then a name taken from an inode, then a name that
      is not there. */
  lemma LinkErrors(s: seq<Byte>, oldname: seq<Byte>, newname: seq<Byte>, hasInode: bool, readOnly: bool, mayWrite: bool)
    requires Component(oldname, NAMELEN) != []
    ensures var error := LinkError(s, oldname, newname, hasInode, readOnly, mayWrite);
      && (error == 30 <==> readOnly) && (error == 13 <==> !readOnly && !mayWrite)
      && (!readOnly && mayWrite ==>
            && (error == 17 <==> hasInode && (newname == [] || newname[0] == 0))
            && (error == 2 <==> Get(s, Component(oldname, NAMELEN)) == None && !(hasInode && (newname == [] || newname[0] == 0)))
            && (error == 0 <==> Get(s, Component(oldname, NAMELEN)) != None && !(hasInode && (newname == [] || newname[0] == 0))))
  {
  }

  /** An entry on the device: the inode number, low byte first, and 30 bytes of name up to the first NUL. */
  lemma EntryBytes(ino: Word, buf: seq<Byte>, i: nat)
    requires |buf| >= 30 && i < 32
    ensures EntryOf(ino, Stored(buf, 30))[i] ==
      if i == 0 then ino % 256 else if i == 1 then ino / 256
      else if exists j :: 0 <= j <= i - 2 && buf[j] == 0 then 0 else buf[i - 2]
  {
    if i >= 2 {
      StoredByte(buf, 30, i - 2);
    }
  }

  lemma {:induction false} StoredByte(buf: seq<Byte>, k: nat, i: nat)
    requires i < k <= |buf|
    ensures Stored(buf, k)[i] == if exists j :: 0 <= j <= i && buf[j] == 0 then 0 else buf[i]
    decreases k
  {
    if buf[0] != 0 && i > 0 {
      StoredByte(buf[1..], k - 1, i - 1);
      if j :| 0 <= j <= i && buf[j] == 0 {
        assert buf[1..][j - 1] == 0;
      }
      if j :| 0 <= j <= i - 1 && buf[1..][j] == 0 {
        assert buf[j + 1] == 0;
      }
    }
  }

  /** ch_link: make the first entry called oldname into one called newname with the inode given.  An
      oldname of "" stands for an unused entry, or else the end of the directory; no inode stands for 0. */
  method ChLink(fs: Fs, n: nat, oldname: seq<Byte>, newname: seq<Byte>, nindex: Option<Word>,
                readOnly: bool, mayWrite: bool, ghost s: seq<Byte>) returns (error: nat)
    requires fs.Valid() && IsDir(fs.Now(), n, s) && |newname| >= NAMELEN
    modifies fs, fs.st, fs.st.sfree
    ensures fs.Valid() && OthersKept(old(fs.Now()), fs.Now(), n) && InodesKept(old(fs.Now()), fs.Now(), n)
    ensures
      var k := Find(s, Component(oldname, NAMELEN), 0);
      var early := LinkError(s, oldname, newname, nindex.Some?, readOnly, mayWrite);
      && (early != 0 ==> error == early)
      && (early == 0 && error != 0 ==> k == Count(s) && error in {ENOSPC, EFBIG})
      && IsDir(fs.Now(), n, if error != 0 then s else
           Relinked(s, k, EntryOf(if nindex.Some? then nindex.value else 0, Stored(newname, NAMELEN))))
  {
    hide IsDir, Owns, Mounted, OthersKept, InodesKept, Relinked, Component, Stored;
    OthersRefl(fs.Now(), n);
    InodesRefl(fs.Now(), n);
    if readOnly {
      return EROFS;
    }
    if !mayWrite {
      return EACCES;
    }
    if Char(newname, 0) == 0 && nindex.Some? {
      return EEXIST;
    }
    var u := new Udata(seq(DIRLEN, _ => 0), 0, 0, 0);
    Search(fs, n, oldname, u, s);
    if u.count == 0 && Char(oldname, 0) != 0 {
      return ENOENT;
    }
    var name := PadName(newname);
    u.mem := EntryOf(if nindex.Some? then nindex.value else 0, name);
    if u.count != 0 {
      u.offset := u.offset - DIRLEN;
    }
    DirEnd(fs.Now(), n, s);
    Put(fs, n, u, Find(s, Component(oldname, NAMELEN), 0), s);
    error := u.error;
  }

  lemma DirEnd(v: View, n: nat, s: seq<Byte>)
    requires IsDir(v, n, s)
    ensures |s| == DIRLEN * Count(s)
  {
  }

  /** On a directory without duplicate names ch_link is an update of the map: the old name goes, the new
      one is there with its inode, every other name keeps its inode, and names stay unique. */
  lemma LinkIsUpdate(s: seq<Byte>, oldname: seq<Byte>, newname: seq<Byte>, ino: Word, x: seq<Byte>)
    requires WholeEntries(s) && Unique(s) && |newname| >= NAMELEN && x != []
    requires var old', new' := Component(oldname, NAMELEN), Component(newname, NAMELEN);
      new' == [] || new' == old' || Get(s, new') == None
    requires Component(oldname, NAMELEN) != [] ==> Get(s, Component(oldname, NAMELEN)) != None
    ensures
      var old', new' := Component(oldname, NAMELEN), Component(newname, NAMELEN);
      var s' := Relinked(s, Find(s, old', 0), EntryOf(ino, Stored(newname, NAMELEN)));
      && WholeEntries(s') && Unique(s')
      && Get(s', x) == if x == new' then Some(ino) else if x == old' then None else Get(s, x)
  {
    StoredComponent(newname, NAMELEN);
    RelinkedMap(s, Find(s, Component(oldname, NAMELEN), 0), ino, Stored(newname, NAMELEN), x);
  }

  /** ch_link does not look for the new name: names stay unique if and only if it is unused, or the one replaced. */
  lemma LinkTwice(s: seq<Byte>, k: nat, ino: Word, name: seq<Byte>)
    requires WholeEntries(s) && Unique(s) && k <= Count(s) && |name| == NAMELEN
    ensures Unique(Relinked(s, k, EntryOf(ino, name))) <==>
      var c := Component(name, NAMELEN); c == [] || (k < Count(s) && NameAt(s, k) == c) || Get(s, c) == None
  {
    hide Relinked, EntryOf, Component;
    var s', c := Relinked(s, k, EntryOf(ino, name)), Component(name, NAMELEN);
    if c == [] || (k < Count(s) && NameAt(s, k) == c) || Get(s, c) == None {
      RelinkedMap(s, k, ino, name, [1]);
    } else {
      var j := Find(s, c, 0);
      RelinkedBytes(s, k, EntryOf(ino, name));
      RelinkedEntries(s, k, ino, name, j);
      RelinkedEntries(s, k, ino, name, k);
      assert NameAt(s', j) == NameAt(s', k) == c;
    }
  }

  // ---------------------------------------------------------------- srch_dir

  /** The sixteen entries of a directory block are the next sixteen entries, or unused past the end. */
  lemma BlockEntries(v: View, n: nat, s: seq<Byte>, bm: Word, e: nat)
    requires Owns(v) && IsDir(v, n, s) && BLKSIZE * bm < |s| && e < 16
    ensures 0 != Map(v, n, bm) < |v.disk| <= NULLBLK
    ensures
      var i, raw := 16 * bm + e, v.disk[Map(v, n, bm)][DIRLEN * e..DIRLEN * e + DIRLEN];
      if i < Count(s) then raw == Entry(s, i) else raw == seq(DIRLEN, _ => 0)
  {
    var i := 16 * bm + e;
    Readable512(v, n, bm);
    var raw := v.disk[Map(v, n, bm)][DIRLEN * e..DIRLEN * e + DIRLEN];
    forall j | 0 <= j < DIRLEN
      ensures raw[j] == if i < Count(s) then Entry(s, i)[j] else 0
    {
      var o := DIRLEN * i + j;
      assert o / BLKSIZE == bm && o % BLKSIZE == DIRLEN * e + j;
      assert ByteAt(v, n, o) == raw[j];
    }
  }

  /** The entry at index i, or an unused one past the end, has the name just when the search stops there. */
  lemma FindStep(s: seq<Byte>, want: seq<Byte>, i: nat, raw: seq<Byte>)
    requires want != [] && |raw| == DIRLEN
    requires if i < Count(s) then raw == Entry(s, i) else raw == seq(DIRLEN, _ => 0)
    ensures Component(raw[2..], NAMELEN) == want <==> i < Count(s) && NameAt(s, i) == want
    ensures i < Count(s) ==> InoAt(s, i) == var lo: int, hi: int := raw[0], raw[1]; lo + 256 * hi
  {
    if i < Count(s) {
      EntryParts(s, i, raw);
    } else {
      ZeroName(raw[2..], NAMELEN);
    }
  }

  /** srch_dir: the inode number that a nonempty path component has in a directory. */
  method SrchDir(fs: Fs, n: nat, compname: seq<Byte>, ghost s: seq<Byte>) returns (r: Option<Word>)
    requires fs.Valid() && IsDir(fs.Now(), n, s)
    requires Component(compname, NAMELEN) != []
    modifies fs, fs.st, fs.st.sfree
    ensures fs.Valid() && fs.Now() == old(fs.Now())
    ensures r == Get(s, Component(compname, NAMELEN))
  {
    hide IsDir, Owns, Mounted, Component, Entry, NameAt, InoAt, Remap, Missing, Map, Find;
    ghost var v, want := fs.Now(), Component(compname, NAMELEN);
    DirSize(v, n, s);
    var nblocks := (fs.inodes[n].size + BLKSIZE - 1) / BLKSIZE;
    var curblock := 0;
    while curblock < nblocks
      invariant fs.Valid() && fs.Now() == v
      invariant 0 <= curblock <= nblocks
      invariant Find(s, want, 0) == Find(s, want, Min(16 * curblock, Count(s)))
    {
      BlockEntries(v, n, s, curblock, 0);
      var pblk := fs.Bmap(n, curblock, true);
      var buf := fs.st.disk[pblk];
      var curentry := 0;
      while curentry < 16
        invariant fs.Valid() && fs.Now() == v
        invariant 0 <= curentry <= 16
        invariant Find(s, want, 0) == Find(s, want, Min(16 * curblock + curentry, Count(s)))
      {
        BlockEntries(v, n, s, curblock, curentry);
        var d := buf[DIRLEN * curentry..DIRLEN * curentry + DIRLEN];
        FindStep(s, want, 16 * curblock + curentry, d);
        var same := NameComp(compname, d[2..]);
        if same {
          var lo: int, hi: int := d[0], d[1];
          return Some(lo + 256 * hi);
        }
        curentry := curentry + 1;
      }
      curblock := curblock + 1;
    }
    assert Min(16 * nblocks, Count(s)) == Count(s);
    r := None;
  }
}
