/** The demand-paged memory of the INTCODE interpreter (Applications/BCPL/icint.c): whatever is evicted and
    fetched again, it reads like a flat array, but for sums that add2M leaves on a clean page. */
module Paging {
  type Word = n: int | 0 <= n < 65536

  const BLKSIZE: nat := 1024
  const VBLKS: nat := 63
  /** VSIZE */
  const SIZE: nat := 64512

  type Addr = n: int | 0 <= n < SIZE
  type Words = s: seq<Word> | |s| == SIZE witness seq(SIZE, _ => 0)

  datatype PageState = Never | Clean | Dirty

  /** Where a page is in the page file, counted in words: the byte offset page*2*BLKSIZE is cut to 16 bits. */
  function FileWord(page: nat): (off: nat)
    ensures off % BLKSIZE == 0 && off < 32 * BLKSIZE
  {
    page * 2 * BLKSIZE % 65536 / 2
  }

  /** Two pages share a place in the file exactly when they are 32 apart. */
  lemma SamePlace(p: nat, q: nat)
    ensures FileWord(p) == FileWord(q) <==> p % 32 == q % 32
    ensures p < 32 ==> FileWord(p) == p * BLKSIZE
    ensures FileWord(p) + BLKSIZE <= FileWord(q) || FileWord(q) + BLKSIZE <= FileWord(p) || FileWord(p) == FileWord(q)
  {
    PlaceIs(p);
    PlaceIs(q);
  }

  lemma PlaceIs(p: nat)
    ensures FileWord(p) == p % 32 * BLKSIZE
  {
    hide FileWord;
    PlaceParts(p, p / 32, p % 32);
  }

  lemma PlaceParts(p: nat, q: nat, m: nat)
    requires p == 32 * q + m && m < 32
    ensures FileWord(p) == m * BLKSIZE
  {
    assert p * 2 * BLKSIZE == 65536 * q + 2048 * m;
    Cut(q, 2048 * m);
  }

  lemma Cut(q: nat, r: nat)
    requires r < 65536
    ensures (65536 * q + r) % 65536 == r
  {
  }

  /** lseek and write within the page file, or read into a buffer. */
  function Splice(m: seq<Word>, at: nat, block: seq<Word>): (n: seq<Word>)
    requires at + |block| <= |m|
    ensures |n| == |m| && n[at..at + |block|] == block
    ensures forall k :: 0 <= k < |m| && !(at <= k < at + |block|) ==> n[k] == m[k]
    ensures forall k :: 0 <= k < |block| ==> n[at + k] == block[k]
  {
    m[..at] + block + m[at + |block|..]
  }

  /** The interpreter's memory at one moment: its buffers, the page tables and the page file. */
  datatype Mem = Mem(pblks: nat, m: seq<Word>, vmap: seq<int>, pmap: seq<int>, state: seq<PageState>, file: seq<Word>)

  predicate Shape(s: Mem) {
    && 0 < s.pblks <= VBLKS && |s.m| == s.pblks * BLKSIZE && |s.vmap| == |s.pmap| == |s.state| == VBLKS
    && |s.file| == SIZE
  }

  /** vmap and pmap are inverse to each other. */
  predicate Inverse(s: Mem)
    requires Shape(s)
  {
    && (forall v :: 0 <= v < VBLKS ==> s.vmap[v] == -1 || (0 <= s.vmap[v] < s.pblks && s.pmap[s.vmap[v]] == v))
    && (forall i :: 0 <= i < s.pblks ==> s.pmap[i] == -1 || (0 <= s.pmap[i] < VBLKS && s.vmap[s.pmap[i]] == i))
  }

  /** Pages not in memory are clean if they were ever used, and none was as long as a buffer is unassigned; no two
      pages touched share a place in the file. */
  ghost predicate States(s: Mem, touched: set<nat>)
    requires Shape(s)
  {
    && (forall v :: 0 <= v < VBLKS && s.vmap[v] == -1 ==> s.state[v] == if v in touched then Clean else Never)
    && (forall v :: 0 <= v < VBLKS && s.vmap[v] == -1 && Unassigned(s) ==> v !in touched)
    && (forall i :: 0 <= i < s.pblks && s.pmap[i] != -1 ==> s.pmap[i] in touched)
    && (forall v :: v in touched ==> v < VBLKS)
    && (forall v, w :: v in touched && w in touched && FileWord(v) == FileWord(w) ==> v == w)
  }

  ghost predicate Unassigned(s: Mem)
    requires Shape(s)
  {
    exists i :: 0 <= i < s.pblks && s.pmap[i] == -1
  }

  /** The page's place in the file is nobody else's. */
  predicate Alone(page: nat, touched: set<nat>) {
    forall v :: v in touched && FileWord(v) == FileWord(page) ==> v == page
  }

  function Block(s: Mem, i: nat): (b: seq<Word>)
    requires Shape(s) && i < s.pblks
    ensures |b| == BLKSIZE && forall k :: 0 <= k < BLKSIZE ==> b[k] == s.m[i * BLKSIZE + k]
  {
    s.m[i * BLKSIZE..(i + 1) * BLKSIZE]
  }

  /** The page's place in the file. */
  function Place(s: Mem, v: nat): (b: seq<Word>)
    requires Shape(s)
    ensures |b| == BLKSIZE && forall k :: 0 <= k < BLKSIZE ==> b[k] == s.file[FileWord(v) + k]
  {
    s.file[FileWord(v)..FileWord(v) + BLKSIZE]
  }

  function ZeroPage(): (b: seq<Word>)
    ensures |b| == BLKSIZE && forall k :: 0 <= k < BLKSIZE ==> b[k] == 0
  {
    seq(BLKSIZE, _ => 0)
  }

  /** Buffers not yet assigned and places in the file not yet used are zero. */
  ghost predicate Blank(s: Mem, touched: set<nat>)
    requires Shape(s)
  {
    && (forall i :: 0 <= i < s.pblks && s.pmap[i] == -1 ==> Block(s, i) == ZeroPage())
    && (forall v: nat :: v < VBLKS && v !in touched && Alone(v, touched) ==> Place(s, v) == ZeroPage())
  }

  /** Address a has the value x while its page is in memory, and y once the page is replaced: the two differ only
      on a clean page in memory. */
  predicate Held(s: Mem, a: nat, x: Word, y: Word)
    requires Shape(s) && Inverse(s) && a < SIZE
  {
    var v := a / BLKSIZE;
    && (s.vmap[v] != -1 ==> s.m[s.vmap[v] * BLKSIZE + a % BLKSIZE] == x)
    && (s.state[v] == Clean ==> s.file[FileWord(v) + a % BLKSIZE] == y)
    && (s.vmap[v] == -1 || s.state[v] != Clean ==> x == y)
  }

  ghost predicate AllHeld(s: Mem, now: Words, kept: Words, touched: set<nat>)
    requires Shape(s) && Inverse(s)
  {
    forall a :: 0 <= a < SIZE && a / BLKSIZE in touched ==> Held(s, a, now[a], kept[a])
  }

  ghost predicate Ok(s: Mem, now: Words, kept: Words, touched: set<nat>) {
    Shape(s) && Inverse(s) && States(s, touched) && Blank(s, touched) && AllHeld(s, now, kept, touched)
  }

  /** The words of c, but those of page v from another array. */
  function Overlay(c: Words, v: int, from: Words): (r: Words)
    ensures forall a :: 0 <= a < SIZE ==> r[a] == if a / BLKSIZE == v then from[a] else c[a]
  {
    seq(SIZE, a requires 0 <= a < SIZE => (if a / BLKSIZE == v then from else c)[a])
  }

  function Zeros(): (z: Words)
    ensures forall a :: 0 <= a < SIZE ==> z[a] == 0
  {
    seq(SIZE, _ => 0)
  }

  // ------------------------------------------------------------------ an unassigned buffer

  /** A page that is not in memory takes an unassigned buffer, and counts as clean. */
  function Assign(s: Mem, i: nat, page: nat): Mem
    requires Shape(s) && i < s.pblks && page < VBLKS
  {
    s.(vmap := s.vmap[page := i], pmap := s.pmap[i := page], state := s.state[page := Clean])
  }

  lemma AssignOk(s: Mem, i: nat, page: nat, now: Words, kept: Words, touched: set<nat>)
    requires Ok(s, now, kept, touched) && i < s.pblks && s.pmap[i] == -1 && page < VBLKS && s.vmap[page] == -1 && Alone(page, touched)
    ensures page !in touched
    ensures Ok(Assign(s, i, page), Overlay(now, page, Zeros()), Overlay(kept, page, Zeros()), touched + {page})
  {
    hide Blank, AllHeld, FileWord, Held, Overlay, Zeros;
    var t := Assign(s, i, page);
    assert Unassigned(s);
    AssignBlank(s, i, page, touched);
    AssignHeld(s, i, page, now, kept, touched);
  }

  lemma AssignBlank(s: Mem, i: nat, page: nat, touched: set<nat>)
    requires Shape(s) && Blank(s, touched) && i < s.pblks && page < VBLKS && s.pmap[i] == -1
    ensures Blank(Assign(s, i, page), touched + {page})
  {
    hide FileWord, ZeroPage;
    var t := Assign(s, i, page);
    forall v: nat | v < VBLKS && v !in touched + {page} && Alone(v, touched + {page}) ensures Place(t, v) == ZeroPage() {
      assert Alone(v, touched);
    }
    forall j | 0 <= j < t.pblks && t.pmap[j] == -1 ensures Block(t, j) == ZeroPage() {
      assert Block(s, j) == ZeroPage();
    }
  }

  lemma AssignHeld(s: Mem, i: nat, page: nat, now: Words, kept: Words, touched: set<nat>)
    requires Ok(s, now, kept, touched) && i < s.pblks && s.pmap[i] == -1 && page < VBLKS && s.vmap[page] == -1 && Alone(page, touched)
    requires page !in touched && Inverse(Assign(s, i, page))
    ensures AllHeld(Assign(s, i, page), Overlay(now, page, Zeros()), Overlay(kept, page, Zeros()), touched + {page})
  {
    hide FileWord, States, Overlay, Zeros;
    var t, now', kept' := Assign(s, i, page), Overlay(now, page, Zeros()), Overlay(kept, page, Zeros());
    forall a | 0 <= a < SIZE && a / BLKSIZE in touched + {page} ensures Held(t, a, now'[a], kept'[a]) {
      if a / BLKSIZE == page {
        assert Block(s, i)[a % BLKSIZE] == 0 && Place(s, page)[a % BLKSIZE] == 0;
      } else {
        assert Held(s, a, now[a], kept[a]);
      }
    }
  }

  // ------------------------------------------------------------------ writing a page out

  /** Write the page in buffer i to the file. */
  function PutOut(s: Mem, i: nat): Mem
    requires Shape(s) && Inverse(s) && i < s.pblks && s.pmap[i] != -1
  {
    s.(file := Splice(s.file, FileWord(s.pmap[i]), Block(s, i)), state := s.state[s.pmap[i] := Clean])
  }

  lemma PutOutOk(s: Mem, i: nat, now: Words, kept: Words, touched: set<nat>)
    requires Ok(s, now, kept, touched) && i < s.pblks && s.pmap[i] != -1 && s.state[s.pmap[i]] != Clean
    ensures Ok(PutOut(s, i), now, kept, touched)
  {
    hide PutOut, FileWord, States, Inverse, Held, Blank;
    PutOutTables(s, i, touched);
    PutOutBlank(s, i, touched);
    forall a | 0 <= a < SIZE && a / BLKSIZE in touched ensures Held(PutOut(s, i), a, now[a], kept[a]) {
      PutOutHeld(s, i, a, now[a], kept[a], touched);
    }
  }

  lemma PutOutTables(s: Mem, i: nat, touched: set<nat>)
    requires Shape(s) && Inverse(s) && States(s, touched) && i < s.pblks && s.pmap[i] != -1
    ensures var t := PutOut(s, i); Shape(t) && Inverse(t) && States(t, touched)
  {
    hide FileWord;
    assert s.pmap[i] in touched && s.vmap[s.pmap[i]] == i;
    assert Unassigned(PutOut(s, i)) ==> Unassigned(s);
  }

  lemma PutOutBlank(s: Mem, i: nat, touched: set<nat>)
    requires Shape(s) && Inverse(s) && States(s, touched) && Blank(s, touched) && i < s.pblks && s.pmap[i] != -1
    ensures Shape(PutOut(s, i)) && Blank(PutOut(s, i), touched)
  {
    hide FileWord, Splice, ZeroPage;
    var t, w := PutOut(s, i), s.pmap[i];
    forall v: nat | v < VBLKS && v !in touched && Alone(v, touched) ensures Place(t, v) == ZeroPage() {
      SamePlace(v, w);
      assert Place(t, v) == Place(s, v);
    }
    forall j | 0 <= j < t.pblks && t.pmap[j] == -1 ensures Block(t, j) == ZeroPage() {
      assert Block(s, j) == ZeroPage();
    }
  }

  lemma PutOutHeld(s: Mem, i: nat, a: nat, x: Word, y: Word, touched: set<nat>)
    requires Shape(s) && Inverse(s) && States(s, touched) && i < s.pblks && s.pmap[i] != -1 && s.state[s.pmap[i]] != Clean
    requires a < SIZE && a / BLKSIZE in touched && Held(s, a, x, y)
    requires Shape(PutOut(s, i)) && Inverse(PutOut(s, i))
    ensures Held(PutOut(s, i), a, x, y)
  {
    hide FileWord, Splice, Block, Inverse;
    Facts(s, i, a / BLKSIZE, touched);
    SamePlace(s.pmap[i], a / BLKSIZE);
    PutOutWord(s, i, a);
  }

  /** Words of the page are in the file now, words of other places are as they were. */
  lemma PutOutWord(s: Mem, i: nat, a: nat)
    requires Shape(s) && Inverse(s) && i < s.pblks && s.pmap[i] != -1
    ensures
      var t, v := PutOut(s, i), s.pmap[i];
      && |t.file| == |s.file|
      && t.file[FileWord(v) + a % BLKSIZE] == s.m[i * BLKSIZE + a % BLKSIZE]
      && forall k :: 0 <= k < |s.file| && !(FileWord(v) <= k < FileWord(v) + BLKSIZE) ==> t.file[k] == s.file[k]
  {
    var t, v := PutOut(s, i), s.pmap[i];
    assert t.file[FileWord(v)..FileWord(v) + BLKSIZE][a % BLKSIZE] == Block(s, i)[a % BLKSIZE];
  }

  // ------------------------------------------------------------------ replacing a clean page

  /** Page takes over buffer i from a clean page, and is read in unless it was never used. */
  function Replace(s: Mem, i: nat, page: nat): Mem
    requires Shape(s) && Inverse(s) && i < s.pblks && s.pmap[i] != -1 && page < VBLKS
  {
    s.(vmap := s.vmap[s.pmap[i] := -1][page := i], pmap := s.pmap[i := page],
       m := if s.state[page] == Clean then Splice(s.m, i * BLKSIZE, s.file[FileWord(page)..FileWord(page) + BLKSIZE]) else s.m)
  }

  /** What a buffer would read as on any page. */
  function Buffer(s: Mem, i: nat): Words
    requires Shape(s) && i < s.pblks
  {
    seq(SIZE, a requires 0 <= a < SIZE => s.m[i * BLKSIZE + a % BLKSIZE])
  }

  /** The page replaced goes back to what the file has; a page never used before reads as whatever is in the buffer. */
  lemma ReplaceOk(s: Mem, i: nat, page: nat, now: Words, kept: Words, touched: set<nat>)
    requires Ok(s, now, kept, touched) && !Unassigned(s) && i < s.pblks && s.pmap[i] != -1 && s.state[s.pmap[i]] == Clean
    requires page < VBLKS && s.vmap[page] == -1 && Alone(page, touched)
    ensures page != s.pmap[i]
    ensures var now1 := Overlay(now, s.pmap[i], kept);
      if page in touched then Ok(Replace(s, i, page), now1, kept, touched)
      else Ok(Replace(s, i, page), Overlay(now1, page, Buffer(s, i)), Overlay(kept, page, Buffer(s, i)), touched + {page})
  {
    hide FileWord, Replace, States, Inverse, Held, Unassigned, Blank, Overlay, Buffer;
    ReplaceTables(s, i, page, touched);
    ReplaceBlank(s, i, page, touched);
    var t, now1, b := Replace(s, i, page), Overlay(now, s.pmap[i], kept), Buffer(s, i);
    if page in touched {
      assert touched + {page} == touched;
      forall a | 0 <= a < SIZE && a / BLKSIZE in touched ensures Held(t, a, now1[a], kept[a]) {
        ReplaceHeld(s, i, page, a, now, kept, touched);
      }
    } else {
      var now2, kept2 := Overlay(now1, page, b), Overlay(kept, page, b);
      forall a | 0 <= a < SIZE && a / BLKSIZE in touched + {page} ensures Held(t, a, now2[a], kept2[a]) {
        if a / BLKSIZE == page {
          ReplaceFresh(s, i, page, a, touched);
        } else {
          ReplaceHeld(s, i, page, a, now, kept, touched);
        }
      }
    }
  }

  lemma ReplaceTables(s: Mem, i: nat, page: nat, touched: set<nat>)
    requires Shape(s) && Inverse(s) && States(s, touched) && !Unassigned(s)
    requires i < s.pblks && s.pmap[i] != -1 && s.state[s.pmap[i]] == Clean
    requires page < VBLKS && s.vmap[page] == -1 && Alone(page, touched)
    ensures var t := Replace(s, i, page); Shape(t) && Inverse(t) && States(t, touched + {page}) && page != s.pmap[i]
  {
    hide FileWord, Splice;
    var t := Replace(s, i, page);
    assert !Unassigned(t);
  }

  lemma ReplaceBlank(s: Mem, i: nat, page: nat, touched: set<nat>)
    requires Shape(s) && Inverse(s) && Blank(s, touched) && !Unassigned(s) && i < s.pblks && s.pmap[i] != -1 && page < VBLKS
    ensures Shape(Replace(s, i, page)) && Blank(Replace(s, i, page), touched + {page})
  {
    hide FileWord, Splice, ZeroPage;
    var t := Replace(s, i, page);
    assert !Unassigned(t);
    forall v: nat | v < VBLKS && v !in touched + {page} && Alone(v, touched + {page}) ensures Place(t, v) == ZeroPage() {
      assert Alone(v, touched);
    }
  }

  lemma ReplaceFields(s: Mem, i: nat, page: nat)
    requires Shape(s) && Inverse(s) && i < s.pblks && s.pmap[i] != -1 && page < VBLKS
    ensures var t := Replace(s, i, page); t.state == s.state && t.file == s.file && t.vmap == s.vmap[s.pmap[i] := -1][page := i]
  {
  }

  lemma Facts(s: Mem, i: nat, v: nat, touched: set<nat>)
    requires Shape(s) && Inverse(s) && States(s, touched) && i < s.pblks && s.pmap[i] != -1 && v < VBLKS
    ensures 0 <= s.pmap[i] < VBLKS && (s.vmap[v] == -1 || 0 <= s.vmap[v] < s.pblks)
    ensures s.vmap[s.pmap[i]] == i && (s.vmap[v] == i ==> v == s.pmap[i])
    ensures s.vmap[v] == -1 ==> s.state[v] == if v in touched then Clean else Never
  {
  }

  lemma ReplaceHeld(s: Mem, i: nat, page: nat, a: nat, now: Words, kept: Words, touched: set<nat>)
    requires Shape(s) && Inverse(s) && States(s, touched) && AllHeld(s, now, kept, touched)
    requires i < s.pblks && s.pmap[i] != -1 && s.state[s.pmap[i]] == Clean && page < VBLKS && s.vmap[page] == -1
    requires a < SIZE && a / BLKSIZE in touched && Shape(Replace(s, i, page)) && Inverse(Replace(s, i, page))
    ensures Held(Replace(s, i, page), a, Overlay(now, s.pmap[i], kept)[a], kept[a])
  {
    hide FileWord, Replace, States, Inverse, Splice, Overlay;
    var v := a / BLKSIZE;
    assert Held(s, a, now[a], kept[a]);
    ReplaceFields(s, i, page);
    Facts(s, i, v, touched);
    ReplaceWord(s, i, page, v, a % BLKSIZE);
  }

  lemma ReplaceFresh(s: Mem, i: nat, page: nat, a: nat, touched: set<nat>)
    requires Shape(s) && Inverse(s) && States(s, touched) && i < s.pblks && s.pmap[i] != -1
    requires page < VBLKS && s.vmap[page] == -1 && page !in touched
    requires a < SIZE && a / BLKSIZE == page && Shape(Replace(s, i, page)) && Inverse(Replace(s, i, page))
    ensures Held(Replace(s, i, page), a, Buffer(s, i)[a], Buffer(s, i)[a])
  {
    hide FileWord, States, Inverse, Splice;
    Facts(s, i, page, touched);
  }

  lemma ReplaceWord(s: Mem, i: nat, page: nat, v: nat, k: nat)
    requires Shape(s) && Inverse(s) && i < s.pblks && s.pmap[i] != -1 && page < VBLKS && s.vmap[page] == -1
    requires v < VBLKS && k < BLKSIZE
    ensures
      var t := Replace(s, i, page);
      && (v == page && s.state[page] == Clean ==> t.m[i * BLKSIZE + k] == s.file[FileWord(page) + k])
      && (v != page && v != s.pmap[i] && s.vmap[v] != -1 ==>
          t.vmap[v] == s.vmap[v] && t.m[s.vmap[v] * BLKSIZE + k] == s.m[s.vmap[v] * BLKSIZE + k])
  {
    hide FileWord;
    if v == page && s.state[page] == Clean {
      var block := s.file[FileWord(page)..FileWord(page) + BLKSIZE];
      assert Splice(s.m, i * BLKSIZE, block)[i * BLKSIZE + k] == block[k];
    }
    if v != page && v != s.pmap[i] && s.vmap[v] != -1 {
      assert s.vmap[v] != i;
    }
  }

  // ------------------------------------------------------------------ storing a word

  /** A store to a page in memory. */
  function Poke(s: Mem, a: nat, x: Word, dirty: bool): Mem
    requires Shape(s) && Inverse(s) && a / BLKSIZE < VBLKS && s.vmap[a / BLKSIZE] != -1
  {
    var v := a / BLKSIZE;
    s.(m := s.m[s.vmap[v] * BLKSIZE + a % BLKSIZE := x], state := if dirty then s.state[v := Dirty] else s.state)
  }

  /** What is kept after a store to address a, on a page that it makes dirty or that is firm without it. */
  function Kept(kept: Words, now: Words, a: Addr, dirty: bool, firm: bool): Words {
    if dirty then Overlay(kept, a / BLKSIZE, now) else if firm then kept[a := now[a]] else kept
  }

  lemma PokeOk(s: Mem, a: Addr, x: Word, dirty: bool, now: Words, kept: Words, touched: set<nat>)
    requires Ok(s, now, kept, touched) && a / BLKSIZE < VBLKS && s.vmap[a / BLKSIZE] != -1
    ensures Ok(Poke(s, a, x, dirty), now[a := x], Kept(kept, now[a := x], a, dirty, s.state[a / BLKSIZE] != Clean), touched)
  {
    hide FileWord, Held, Blank, Overlay, Kept;
    var t, now' := Poke(s, a, x, dirty), now[a := x];
    var kept' := Kept(kept, now', a, dirty, s.state[a / BLKSIZE] != Clean);
    assert Unassigned(t) == Unassigned(s);
    PokeBlank(s, a, x, dirty, touched);
    forall b | 0 <= b < SIZE && b / BLKSIZE in touched ensures Held(t, b, now'[b], kept'[b]) {
      PokeHeld(s, a, x, dirty, b, now, kept);
    }
  }

  lemma PokeBlank(s: Mem, a: nat, x: Word, dirty: bool, touched: set<nat>)
    requires Shape(s) && Inverse(s) && Blank(s, touched) && a / BLKSIZE < VBLKS && s.vmap[a / BLKSIZE] != -1
    ensures Blank(Poke(s, a, x, dirty), touched)
  {
    hide FileWord, ZeroPage;
    var t := Poke(s, a, x, dirty);
    forall j | 0 <= j < t.pblks && t.pmap[j] == -1 ensures Block(t, j) == ZeroPage() {
      assert Block(s, j) == ZeroPage();
      assert Block(t, j) == Block(s, j);
    }
    forall v: nat | v < VBLKS && v !in touched && Alone(v, touched) ensures Place(t, v) == ZeroPage() {
      assert Place(t, v) == Place(s, v);
    }
  }

  lemma PokeHeld(s: Mem, a: Addr, x: Word, dirty: bool, b: nat, now: Words, kept: Words)
    requires Shape(s) && Inverse(s) && s.vmap[a / BLKSIZE] != -1
    requires b < SIZE && Held(s, b, now[b], kept[b])
    ensures var now' := now[a := x];
      Held(Poke(s, a, x, dirty), b, now'[b], Kept(kept, now', a, dirty, s.state[a / BLKSIZE] != Clean)[b])
  {
    hide FileWord;
    if a != b && s.vmap[b / BLKSIZE] != -1 {
      Apart(s, a, b);
    }
  }

  /** Different addresses in memory are different words of it. */
  lemma Apart(s: Mem, a: nat, b: nat)
    requires Shape(s) && Inverse(s) && a / BLKSIZE < VBLKS && b / BLKSIZE < VBLKS && a != b
    requires s.vmap[a / BLKSIZE] != -1 && s.vmap[b / BLKSIZE] != -1
    ensures s.vmap[a / BLKSIZE] * BLKSIZE + a % BLKSIZE != s.vmap[b / BLKSIZE] * BLKSIZE + b % BLKSIZE
  {
    if a / BLKSIZE != b / BLKSIZE {
      assert s.pmap[s.vmap[a / BLKSIZE]] != s.pmap[s.vmap[b / BLKSIZE]];
    }
  }

  lemma OkShape(s: Mem, now: Words, kept: Words, touched: set<nat>)
    requires Ok(s, now, kept, touched)
    ensures Shape(s) && Inverse(s) && States(s, touched)
  {
  }

  lemma Assigned(s: Mem)
    requires Shape(s) && Inverse(s) && !Unassigned(s)
    ensures forall i :: 0 <= i < s.pblks ==> 0 <= s.pmap[i] < VBLKS
  {
  }

  /** A page not in memory is clean just if it was used before. */
  lemma NotInMemory(s: Mem, now: Words, kept: Words, touched: set<nat>, page: nat)
    requires Ok(s, now, kept, touched) && page < VBLKS && s.vmap[page] == -1
    ensures s.state[page] == if page in touched then Clean else Never
  {
  }

  lemma PutOutFacts(s: Mem, i: nat, page: nat)
    requires Shape(s) && Inverse(s) && !Unassigned(s) && i < s.pblks && 0 <= s.pmap[i] < VBLKS && page < VBLKS && s.vmap[page] == -1
    ensures var t := PutOut(s, i); !Unassigned(t) && t.state[s.pmap[i]] == Clean && t.state[page] == s.state[page]
  {
    assert s.vmap[s.pmap[i]] == i;
    assert !Unassigned(PutOut(s, i));
  }

  lemma InMemory(s: Mem, now: Words, kept: Words, touched: set<nat>, page: nat)
    requires Ok(s, now, kept, touched) && page < VBLKS && s.vmap[page] != -1
    ensures 0 <= s.vmap[page] < s.pblks && page in touched && touched + {page} == touched
  {
    assert s.pmap[s.vmap[page]] == page;
  }

  lemma IsHeld(s: Mem, now: Words, kept: Words, touched: set<nat>, a: nat)
    requires Ok(s, now, kept, touched) && a < SIZE && a / BLKSIZE in touched
    ensures Held(s, a, now[a], kept[a])
  {
  }

  lemma NoOverlay(now: Words, kept: Words)
    ensures Overlay(now, -1, kept) == now
  {
  }

  // ------------------------------------------------------------------ the flat array

  /** What each address reads as now, and as once its page has been replaced; the pages in memory that are written
      to the file before they are replaced; and the pages used so far. */
  datatype Flat = Flat(now: Words, kept: Words, firm: set<int>, touched: set<nat>)

  datatype Access = Write(addr: Addr, data: Word) | Read(addr: Addr) | Add(addr: Addr, data: Word)

  function Sum(x: Word, y: Word): Word {
    (x + y) % 65536
  }

  function Page(op: Access): nat {
    op.addr / BLKSIZE
  }

  /** Page is in memory, in place of page w or, if w is -1, of none: w goes back to what is kept of it, and a page
      that comes in over another and was never in the file is firm. */
  function Come(f: Flat, w: int, page: nat): Flat {
    Flat(Overlay(f.now, w, f.kept), f.kept, f.firm - {w} + if page in f.touched || w == -1 then {} else {page},
         f.touched + {page})
  }

  /** Page reads as c. */
  function Fill(f: Flat, page: nat, c: Words): Flat {
    f.(now := Overlay(f.now, page, c), kept := Overlay(f.kept, page, c))
  }

  /** The same, where a page never used before reads as c. */
  function Enter(f: Flat, w: int, page: nat, c: Words): Flat {
    Come(if page in f.touched then f else Fill(f, page, c), w, page)
  }

  /** One access. */
  function Do(f: Flat, op: Access): Flat {
    match op
    case Read(_) => f
    case Write(a, x) => f.(now := f.now[a := x], kept := Kept(f.kept, f.now[a := x], a, true, true), firm := f.firm + {Page(op)})
    case Add(a, x) =>
      var now: Words := f.now[a := Sum(f.now[a], x)];
      f.(now := now, kept := Kept(f.kept, now, a, false, Page(op) in f.firm))
  }

  /** The pages in memory that are dirty, or were never written out. */
  function FirmPages(s: Mem): (r: set<int>)
    requires Shape(s)
    ensures forall v :: v in r <==> 0 <= v < VBLKS && s.vmap[v] != -1 && s.state[v] != Clean
  {
    set v | 0 <= v < VBLKS && s.vmap[v] != -1 && s.state[v] != Clean
  }

  /** The order in which the page that leaves and the page that comes are told does not matter. */
  lemma EnterIs(f: Flat, w: int, page: nat, c: Words)
    requires w != page
    ensures
      var g, now := Enter(f, w, page, c), Overlay(f.now, w, f.kept);
      && g.touched == f.touched + {page}
      && (page in f.touched ==> g.now == now && g.kept == f.kept && g.touched == f.touched && g.firm == f.firm - {w})
      && (page !in f.touched ==> g.now == Overlay(now, page, c) && g.kept == Overlay(f.kept, page, c)
                                 && g.firm == f.firm - {w} + if w == -1 then {} else {page})
  {
    if page !in f.touched {
      assert Overlay(Overlay(f.now, page, c), w, Overlay(f.kept, page, c)) == Overlay(Overlay(f.now, w, f.kept), page, c);
    }
  }

  /** A page that has just been written out is not firm, whether or not it leaves. */
  lemma OutFirst(f: Flat, w: int, page: nat)
    ensures forall c :: Enter(f.(firm := f.firm - {w}), w, page, c) == Enter(f, w, page, c)
  {
    assert f.firm - {w} - {w} == f.firm - {w};
  }

  lemma ReplaceFirm(s: Mem, i: nat, page: nat, touched: set<nat>)
    requires Shape(s) && Inverse(s) && States(s, touched) && i < s.pblks && s.pmap[i] != -1 && s.state[s.pmap[i]] == Clean
    requires page < VBLKS && s.vmap[page] == -1
    ensures Shape(Replace(s, i, page))
    ensures FirmPages(Replace(s, i, page)) == FirmPages(s) - {s.pmap[i]} + if page in touched then {} else {page}
  {
    hide FileWord, Splice;
  }

  /** Before anything runs. */
  lemma NothingUsed(s: Mem)
    requires Shape(s) && s.file == Zeros() && forall k :: 0 <= k < |s.m| ==> s.m[k] == 0
    requires forall i :: 0 <= i < VBLKS ==> s.vmap[i] == s.pmap[i] == -1 && s.state[i] == Never
    ensures Ok(s, Zeros(), Zeros(), {}) && FirmPages(s) == {}
  {
    hide FileWord, Zeros;
    forall i | 0 <= i < s.pblks ensures Block(s, i) == ZeroPage() {
    }
  }

  // ------------------------------------------------------------------ which page leaves

  /** The number of accesses up to the last one to page v, or 0 if there was none. */
  function Last(uses: seq<nat>, v: nat): (r: nat)
    ensures r <= |uses| && (r > 0 ==> uses[r - 1] == v) && v !in uses[r..]
  {
    if uses == [] then 0
    else if uses[|uses| - 1] == v then |uses|
    else
      var n := |uses| - 1;
      assert uses[..n] + [uses[n]] == uses;
      Last(uses[..n], v)
  }

  /** The time stamps order the pages by their last access. */
  ghost predicate Stamped(tcnt: seq<int>, translations: int, uses: seq<nat>) {
    forall v :: 0 <= v < |tcnt| ==>
      tcnt[v] <= translations && forall u :: 0 <= u < |tcnt| ==> (tcnt[v] < tcnt[u] <==> Last(uses, v) < Last(uses, u))
  }

  lemma StampMore(tcnt: seq<int>, translations: int, uses: seq<nat>, page: nat, ticks: nat)
    requires Stamped(tcnt, translations, uses) && page < |tcnt| && ticks > 0
    ensures Stamped(tcnt[page := translations + ticks], translations + ticks, uses + [page])
  {
    forall v: nat ensures Last(uses + [page], v) == if v == page then |uses| + 1 else Last(uses, v) {
      assert (uses + [page])[..|uses|] == uses;
    }
  }

  /** What pagein replaces: nothing while a buffer is unassigned, otherwise the first clean page, and if all are
      dirty the one used longest ago. */
  ghost predicate Leaves(s: Mem, uses: seq<nat>, w: int)
    requires Shape(s)
  {
    if Unassigned(s) then w == -1
    else if exists i :: 0 <= i < s.pblks && CleanIn(s, i) then
      exists i :: 0 <= i < s.pblks && CleanIn(s, i) && w == s.pmap[i] && forall j :: 0 <= j < i ==> !CleanIn(s, j)
    else
      0 <= w < VBLKS && s.vmap[w] != -1
      && forall v :: 0 <= v < VBLKS && s.vmap[v] != -1 ==> Last(uses, w) <= Last(uses, v)
  }

  /** An access replaces a page only if its own is not in memory. */
  ghost predicate Makes(s: Mem, uses: seq<nat>, page: nat, w: int)
    requires Shape(s) && page < VBLKS
  {
    if s.vmap[page] == -1 then Leaves(s, uses, w) else w == -1
  }

  ghost predicate CleanIn(s: Mem, i: nat)
    requires Shape(s) && i < s.pblks
  {
    0 <= s.pmap[i] < VBLKS && s.state[s.pmap[i]] == Clean
  }

  lemma OldestLeaves(s: Mem, tcnt: seq<int>, translations: int, uses: seq<nat>, i: nat)
    requires Shape(s) && Inverse(s) && !Unassigned(s) && Stamped(tcnt, translations, uses) && |tcnt| == VBLKS
    requires i < s.pblks && 0 <= s.pmap[i] < VBLKS && forall j :: 0 <= j < s.pblks ==> !CleanIn(s, j)
    requires forall j :: 0 <= j < s.pblks ==> 0 <= s.pmap[j] < VBLKS && tcnt[s.pmap[i]] <= tcnt[s.pmap[j]]
    ensures Leaves(s, uses, s.pmap[i])
  {
  }

  lemma FirstLeaves(s: Mem, uses: seq<nat>, i: nat)
    requires Shape(s) && Inverse(s) && i < s.pblks
    ensures s.pmap[i] == -1 ==> Leaves(s, uses, -1)
    ensures !Unassigned(s) && CleanIn(s, i) && (forall j :: 0 <= j < i ==> !CleanIn(s, j)) ==> Leaves(s, uses, s.pmap[i])
  {
  }

  class Pager {
    const pblks: nat
    const M: array<Word>
    const vmap: array<int>
    const pmap: array<int>
    const tcnt: array<int>
    const pagstate: array<PageState>
    var translations: int
    var file: seq<Word>
    /** What the pages used so far hold. */
    ghost var flat: Flat
    /** The pages accessed so far. */
    ghost var uses: seq<nat>

    ghost function Now(): Mem
      reads this, M, vmap, pmap, pagstate
    {
      Mem(pblks, M[..], vmap[..], pmap[..], pagstate[..], file)
    }

    ghost predicate Valid()
      reads this, M, vmap, pmap, pagstate, tcnt
    {
      && vmap != pmap && vmap != tcnt && pmap != tcnt && vmap.Length == pagstate.Length == tcnt.Length == VBLKS
      && Ok(Now(), flat.now, flat.kept, flat.touched) && flat.firm == FirmPages(Now())
      && Stamped(tcnt[..], translations, uses)
    }

    /** No buffer assigned, no page used, and a page file of zeros, written in full before anything runs. */
    constructor (pblks: nat)
      requires 0 < pblks <= VBLKS
      ensures Valid() && this.pblks == pblks && flat.firm == {} && flat.touched == {} && uses == []
      ensures fresh(M) && fresh(vmap) && fresh(pmap) && fresh(tcnt) && fresh(pagstate)
    {
      hide Ok, FirmPages;
      this.pblks := pblks;
      M := new Word[pblks * BLKSIZE](_ => 0);
      vmap := new int[VBLKS](_ => -1);
      pmap := new int[VBLKS](_ => -1);
      tcnt := new int[VBLKS](_ => 0);
      pagstate := new PageState[VBLKS](_ => Never);
      translations, file := 0, Zeros();
      flat, uses := Flat(Zeros(), Zeros(), {}, {}), [];
      new;
      NothingUsed(Now());
    }

    /** The first search of pagein: an unassigned buffer. */
    method FindFree() returns (i: nat)
      requires Shape(Now())
      ensures i <= pblks && (i < pblks ==> pmap[i] == -1) && (i == pblks <==> !Unassigned(Now()))
    {
      i := 0;
      while i < pblks
        invariant 0 <= i <= pblks && forall j :: 0 <= j < i ==> pmap[j] != -1
      {
        if pmap[i] == -1 {
          assert Now().pmap[i] == -1;
          return;
        }
        i := i + 1;
      }
    }

    /** The second search: a buffer with a clean page. */
    method FindClean() returns (i: nat)
      requires Shape(Now()) && Inverse(Now()) && !Unassigned(Now())
      ensures i <= pblks
      ensures i < pblks ==> 0 <= pmap[i] < VBLKS && pagstate[pmap[i]] == Clean
      ensures forall j :: 0 <= j < i ==> 0 <= pmap[j] < VBLKS && pagstate[pmap[j]] != Clean
    {
      Assigned(Now());
      i := 0;
      while i < pblks
        invariant 0 <= i <= pblks && forall j :: 0 <= j < i ==> pagstate[pmap[j]] != Clean
      {
        assert 0 <= Now().pmap[i] < VBLKS;
        if pagstate[pmap[i]] == Clean {
          return;
        }
        i := i + 1;
      }
    }

    /** The third search: the buffer whose page was translated longest ago. */
    method Oldest() returns (victim: nat)
      requires Shape(Now()) && Inverse(Now()) && !Unassigned(Now()) && tcnt.Length == VBLKS
      ensures victim < pblks && 0 <= pmap[victim] < VBLKS
      ensures forall i :: 0 <= i < pblks ==> 0 <= pmap[i] < VBLKS && tcnt[pmap[victim]] <= tcnt[pmap[i]]
    {
      Assigned(Now());
      assert forall i :: 0 <= i < pblks ==> Now().pmap[i] == pmap[i];
      victim := 0;
      var i := 1;
      while i < pblks
        invariant 1 <= i <= pblks && victim < pblks
        invariant forall j :: 0 <= j < i ==> tcnt[pmap[victim]] <= tcnt[pmap[j]]
      {
        if tcnt[pmap[i]] < tcnt[pmap[victim]] {
          victim := i;
        }
        i := i + 1;
      }
    }

    method PageOut(victim: nat)
      requires Valid() && victim < pblks && 0 <= pmap[victim] < VBLKS && pagstate[pmap[victim]] != Clean
      modifies this`file, this`flat, pagstate
      ensures Valid() && Now() == PutOut(old(Now()), victim) && flat == old(flat).(firm := old(flat.firm) - {pmap[victim]})
    {
      hide Ok, States, Held, Inverse, FileWord, Blank;
      OkShape(Now(), flat.now, flat.kept, flat.touched);
      ghost var s := Now();
      PutOutOk(s, victim, flat.now, flat.kept, flat.touched);
      file := Splice(file, FileWord(pmap[victim]), M[victim * BLKSIZE..(victim + 1) * BLKSIZE]);
      pagstate[pmap[victim]] := Clean;
      flat := flat.(firm := flat.firm - {pmap[victim]});
      assert Now() == PutOut(s, victim);
    }

    /** Page takes the place of a clean page w; c is what the page reads as if it was never used before. */
    method PageTo(i: nat, page: nat) returns (ghost w: nat, ghost c: Words)
      requires Valid() && !Unassigned(Now()) && i < pblks && 0 <= pmap[i] < VBLKS && pagstate[pmap[i]] == Clean
      requires page < VBLKS && vmap[page] == -1 && Alone(page, flat.touched)
      modifies this`flat, vmap, pmap, M
      ensures Valid() && vmap[page] == i && w == old(pmap[i]) != page
      ensures flat == Enter(old(flat), w, page, c)
    {
      hide Ok, States, Held, Inverse, FileWord, Unassigned, Alone, Blank, Overlay, Buffer, Splice;
      OkShape(Now(), flat.now, flat.kept, flat.touched);
      NotInMemory(Now(), flat.now, flat.kept, flat.touched, page);
      ghost var s := Now();
      ReplaceOk(s, i, page, flat.now, flat.kept, flat.touched);
      ReplaceFirm(s, i, page, flat.touched);
      w, c := pmap[i], Buffer(s, i);
      EnterIs(flat, w, page, c);
      vmap[pmap[i]] := -1;
      pmap[i] := page;
      vmap[page] := i;
      if pagstate[page] == Clean {
        Fetch(i, FileWord(page));
      }
      flat := Enter(flat, w, page, c);
      assert Now() == Replace(s, i, page);
    }

    /** Read a page from the file into a buffer. */
    method Fetch(i: nat, off: nat)
      requires M.Length == pblks * BLKSIZE && i < pblks && off + BLKSIZE <= |file|
      modifies M
      ensures M[..] == Splice(old(M[..]), i * BLKSIZE, file[off..off + BLKSIZE])
    {
      ghost var m := M[..];
      forall k | 0 <= k < BLKSIZE {
        M[i * BLKSIZE + k] := file[off + k];
      }
      assert M[..] == Splice(m, i * BLKSIZE, file[off..off + BLKSIZE]);
    }

    /** pagein.  w is the page replaced, or -1. */
    method PageIn(page: nat) returns (ghost w: int, ghost c: Words)
      requires Valid() && page < VBLKS && vmap[page] == -1 && Alone(page, flat.touched)
      modifies this`flat, this`file, vmap, pmap, pagstate, M
      ensures Valid() && vmap[page] != -1 && w != page && old(Leaves(Now(), uses, w))
      ensures flat == Enter(old(flat), w, page, c)
    {
      hide Ok, States, Held, Inverse, FileWord, Unassigned, Alone, Blank, Overlay, Zeros, Stamped, Leaves;
      ghost var s := Now();
      OkShape(s, flat.now, flat.kept, flat.touched);
      NotInMemory(s, flat.now, flat.kept, flat.touched, page);
      var i := FindFree();
      if i < pblks {
        FirstLeaves(s, uses, i);
        AssignOk(s, i, page, flat.now, flat.kept, flat.touched);
        pmap[i] := page;
        vmap[page] := i;
        pagstate[page] := Clean;
        w, c := -1, Zeros();
        EnterIs(flat, w, page, c);
        NoOverlay(flat.now, flat.kept);
        flat := Enter(flat, w, page, c);
        assert Now() == Assign(s, i, page);
        return;
      }
      i := FindClean();
      if i == pblks {
        i := Oldest();
        OldestLeaves(s, tcnt[..], translations, uses, i);
        PageOut(i);
        PutOutFacts(s, i, page);
        OutFirst(old(flat), pmap[i], page);
      } else {
        FirstLeaves(s, uses, i);
      }
      w, c := PageTo(i, page);
    }

    /** What wrM, rdM and add2M start with: the page in memory and its time stamp. */
    method Translate(page: nat, ticks: nat) returns (ghost w: int, ghost c: Words)
      requires Valid() && page < VBLKS && Alone(page, flat.touched)
      requires ticks > 0
      modifies this`translations, this`uses, this`flat, this`file, vmap, pmap, pagstate, tcnt, M
      ensures Valid() && 0 <= vmap[page] < pblks && w != page && uses == old(uses) + [page] && old(Makes(Now(), uses, page, w))
      ensures flat == Enter(old(flat), w, page, c)
    {
      hide Ok, States, Held, Inverse, FileWord, Alone, Blank, Overlay, Stamped, Leaves;
      OkShape(Now(), flat.now, flat.kept, flat.touched);
      ghost var stamps := tcnt[..];
      StampMore(stamps, translations, uses, page, ticks);
      if vmap[page] == -1 {
        w, c := PageIn(page);
      } else {
        InMemory(Now(), flat.now, flat.kept, flat.touched, page);
        w, c := -1, flat.now;
        NoOverlay(flat.now, flat.kept);
      }
      translations := translations + ticks;
      tcnt[page] := translations;
      uses := uses + [page];
      assert tcnt[..] == stamps[page := translations];
      InMemory(Now(), flat.now, flat.kept, flat.touched, page);
    }

    method WrM(addr: Addr, data: Word) returns (ghost w: int, ghost c: Words)
      requires Valid() && Alone(addr / BLKSIZE, flat.touched)
      modifies this, vmap, pmap, pagstate, tcnt, M
      ensures Valid() && w != addr / BLKSIZE
      ensures uses == old(uses) + [addr / BLKSIZE] && old(Makes(Now(), uses, addr / BLKSIZE, w))
      ensures flat == Do(Enter(old(flat), w, addr / BLKSIZE, c), Write(addr, data))
    {
      hide Ok, States, Held, Inverse, FileWord, Alone, Blank, Overlay, Enter, Makes, Stamped;
      var page := addr / BLKSIZE;
      w, c := Translate(page, 1);
      ghost var s := Now();
      OkShape(s, flat.now, flat.kept, flat.touched);
      PokeOk(s, addr, data, true, flat.now, flat.kept, flat.touched);
      pagstate[page] := Dirty;
      M[vmap[page] * BLKSIZE + addr % BLKSIZE] := data;
      flat := Do(flat, Write(addr, data));
      assert Now() == Poke(s, addr, data, true);
    }

    method RdM(addr: Addr) returns (data: Word, ghost w: int, ghost c: Words)
      requires Valid() && Alone(addr / BLKSIZE, flat.touched)
      modifies this`translations, this`uses, this`flat, this`file, vmap, pmap, pagstate, tcnt, M
      ensures Valid() && w != addr / BLKSIZE && vmap[addr / BLKSIZE] != -1
      ensures uses == old(uses) + [addr / BLKSIZE] && old(Makes(Now(), uses, addr / BLKSIZE, w))
      ensures flat == Enter(old(flat), w, addr / BLKSIZE, c) && data == flat.now[addr]
    {
      hide Ok, States, Inverse, FileWord, Alone, Blank, Overlay, Enter, Makes, Stamped;
      var page := addr / BLKSIZE;
      w, c := Translate(page, 1);
      OkShape(Now(), flat.now, flat.kept, flat.touched);
      IsHeld(Now(), flat.now, flat.kept, flat.touched, addr);
      data := M[vmap[page] * BLKSIZE + addr % BLKSIZE];
    }

    /** add2M leaves the state of the page alone: on a clean page the file keeps the old value, and the sum lasts only
        if the page is written to before it is replaced. */
    method Add2M(addr: Addr, data: Word) returns (ghost w: int, ghost c: Words)
      requires Valid() && Alone(addr / BLKSIZE, flat.touched)
      modifies this, vmap, pmap, pagstate, tcnt, M
      ensures Valid() && w != addr / BLKSIZE && vmap[addr / BLKSIZE] != -1
      ensures uses == old(uses) + [addr / BLKSIZE] && old(Makes(Now(), uses, addr / BLKSIZE, w))
      ensures flat == Do(Enter(old(flat), w, addr / BLKSIZE, c), Add(addr, data))
    {
      hide Ok, States, Inverse, FileWord, Alone, Blank, Overlay, Enter, Makes, Stamped;
      var page := addr / BLKSIZE;
      w, c := Translate(page, 2);
      ghost var s := Now();
      OkShape(s, flat.now, flat.kept, flat.touched);
      var at := vmap[page] * BLKSIZE + addr % BLKSIZE;
      var sum := Sum(M[at], data);
      IsHeld(s, flat.now, flat.kept, flat.touched, addr);
      PokeOk(s, addr, sum, false, flat.now, flat.kept, flat.touched);
      M[at] := sum;
      flat := Do(flat, Add(addr, data));
      assert Now() == Poke(s, addr, sum, false);
    }
  }

  // ------------------------------------------------------------------ runs

  /** An access for which page w is replaced, or none if w is -1. */
  function Step(f: Flat, op: Access, w: int): Flat {
    Do(Come(f, w, Page(op)), op)
  }

  function Start(init: Words): Flat {
    Flat(init, init, {}, {})
  }

  function After(f: Flat, ops: seq<Access>, outs: seq<int>): Flat
    requires |outs| == |ops|
    decreases |ops|
  {
    if ops == [] then f else
      var k := |ops| - 1;
      Step(After(f, ops[..k], outs[..k]), ops[k], outs[k])
  }

  lemma AfterMore(f: Flat, ops: seq<Access>, outs: seq<int>, op: Access, w: int)
    requires |outs| == |ops|
    ensures After(f, ops + [op], outs + [w]) == Step(After(f, ops, outs), op, w)
  {
    assert (ops + [op])[..|ops|] == ops && (outs + [w])[..|outs|] == outs;
  }

  /** No two pages used are 32 apart. */
  ghost predicate Places(ops: seq<Access>) {
    forall i, j :: 0 <= i < |ops| && 0 <= j < |ops| && FileWord(Page(ops[i])) == FileWord(Page(ops[j])) ==>
      Page(ops[i]) == Page(ops[j])
  }

  /** Addresses below 32K are such. */
  lemma Below32K(ops: seq<Access>)
    requires forall i :: 0 <= i < |ops| ==> ops[i].addr < 32 * BLKSIZE
    ensures Places(ops)
  {
    forall i, j | 0 <= i < |ops| && 0 <= j < |ops| && FileWord(Page(ops[i])) == FileWord(Page(ops[j]))
      ensures Page(ops[i]) == Page(ops[j])
    {
      SamePlace(Page(ops[i]), Page(ops[j]));
    }
  }

  /** A read finds what the flat array, which began as init, has at its address. */
  ghost predicate Reads(init: Words, ops: seq<Access>, outs: seq<int>, values: seq<Word>, i: nat)
    requires i < |ops| && i < |values| && i <= |outs|
  {
    ops[i].Read? ==> values[i] == After(Start(init), ops[..i], outs[..i]).now[ops[i].addr]
  }

  /** The same pages, with the same contents. */
  ghost predicate Agree(f: Flat, g: Flat) {
    && f.firm == g.firm && f.touched == g.touched
    && forall a :: 0 <= a < SIZE && a / BLKSIZE in f.touched ==> f.now[a] == g.now[a] && f.kept[a] == g.kept[a]
  }

  lemma AgreeStep(f: Flat, g: Flat, op: Access, w: int, c: Words)
    requires Agree(f, g) && w != Page(op)
    ensures Agree(Step(if Page(op) in f.touched then f else Fill(f, Page(op), c), op, w), Do(Enter(g, w, Page(op), c), op))
  {
    AgreeEnter(f, g, w, Page(op), c);
    AgreeDo(Come(if Page(op) in f.touched then f else Fill(f, Page(op), c), w, Page(op)), Enter(g, w, Page(op), c), op);
  }

  lemma AgreeEnter(f: Flat, g: Flat, w: int, page: nat, c: Words)
    requires Agree(f, g) && w != page
    ensures Agree(Enter(f, w, page, c), Enter(g, w, page, c))
  {
  }

  lemma AgreeDo(f: Flat, g: Flat, op: Access)
    requires Agree(f, g) && Page(op) in f.touched
    ensures Agree(Do(f, op), Do(g, op))
  {
  }

  lemma StepFill(f: Flat, op: Access, w: int, page: nat, c: Words)
    requires Page(op) != page
    ensures Step(Fill(f, page, c), op, w) == Fill(Step(f, op, w), page, c)
  {
    var g, h := Step(Fill(f, page, c), op, w), Fill(Step(f, op, w), page, c);
    assert g.now == h.now;
    assert g.kept == h.kept;
  }

  /** What a page held before it was first used does not matter to the others. */
  lemma {:induction false} Retouch(init: Words, ops: seq<Access>, outs: seq<int>, page: nat, c: Words)
    requires |outs| == |ops| && forall i :: 0 <= i < |ops| ==> Page(ops[i]) != page
    ensures After(Start(Overlay(init, page, c)), ops, outs) == Fill(After(Start(init), ops, outs), page, c)
    decreases |ops|
  {
    hide Overlay, Step;
    if ops != [] {
      var k := |ops| - 1;
      Retouch(init, ops[..k], outs[..k], page, c);
      StepFill(After(Start(init), ops[..k], outs[..k]), ops[k], outs[k], page, c);
    }
  }

  /** The first accesses read like the flat array that began as init and has come to f. */
  ghost predicate Sofar(init: Words, ops: seq<Access>, outs: seq<int>, values: seq<Word>, f: Flat) {
    && |outs| == |values| <= |ops| && f == After(Start(init), ops[..|outs|], outs)
    && forall j :: 0 <= j < |outs| ==> outs[j] != Page(ops[j]) && Reads(init, ops, outs, values, j)
  }

  lemma SofarTouch(init: Words, ops: seq<Access>, outs: seq<int>, values: seq<Word>, f: Flat, page: nat, c: Words)
    requires Sofar(init, ops, outs, values, f) && forall j :: 0 <= j < |outs| ==> Page(ops[j]) != page
    ensures Sofar(Overlay(init, page, c), ops, outs, values, Fill(f, page, c))
  {
    hide Overlay, After;
    Retouch(init, ops[..|outs|], outs, page, c);
    forall j | 0 <= j < |outs| ensures Reads(Overlay(init, page, c), ops, outs, values, j) {
      RetouchReads(init, ops, outs, values, j, page, c);
    }
  }

  lemma RetouchReads(init: Words, ops: seq<Access>, outs: seq<int>, values: seq<Word>, i: nat, page: nat, c: Words)
    requires i < |ops| && i < |values| && i <= |outs| && forall j :: 0 <= j <= i ==> Page(ops[j]) != page
    requires Reads(init, ops, outs, values, i)
    ensures Reads(Overlay(init, page, c), ops, outs, values, i)
  {
    Retouch(init, ops[..i], outs[..i], page, c);
  }

  lemma SofarMore(init: Words, ops: seq<Access>, outs: seq<int>, values: seq<Word>, f: Flat, w: int, value: Word)
    requires Sofar(init, ops, outs, values, f) && |outs| < |ops| && w != Page(ops[|outs|])
    requires ops[|outs|].Read? ==> value == f.now[ops[|outs|].addr]
    ensures Sofar(init, ops, outs + [w], values + [value], Step(f, ops[|outs|], w))
  {
    hide After, Step;
    var i := |outs|;
    AfterMore(Start(init), ops[..i], outs, ops[i], w);
    assert ops[..i + 1] == ops[..i] + [ops[i]];
    forall j | 0 <= j <= i ensures Reads(init, ops, outs + [w], values + [value], j) {
      assert (outs + [w])[..j] == outs[..j];
      if j == i {
        assert outs[..i] == outs;
      }
    }
  }

  lemma SofarNone(init: Words, ops: seq<Access>)
    ensures Sofar(init, ops, [], [], Start(init))
  {
  }

  lemma SofarAll(init: Words, ops: seq<Access>, outs: seq<int>, values: seq<Word>, f: Flat)
    requires Sofar(init, ops, outs, values, f)
    ensures |outs| == |values| <= |ops|
    ensures forall j :: 0 <= j < |outs| ==> outs[j] != Page(ops[j]) && Reads(init, ops, outs, values, j)
  {
  }

  /** The pages of the first i accesses. */
  function PagesOf(ops: seq<Access>, i: nat): set<nat>
    requires i <= |ops|
  {
    set j | 0 <= j < i :: Page(ops[j])
  }

  lemma PagesMore(ops: seq<Access>, i: nat)
    requires i < |ops|
    ensures PagesOf(ops, 0) == {} && PagesOf(ops, i + 1) == PagesOf(ops, i) + {Page(ops[i])}
    ensures Places(ops) ==> Alone(Page(ops[i]), PagesOf(ops, i))
    ensures Page(ops[i]) !in PagesOf(ops, i) ==> forall j :: 0 <= j < i ==> Page(ops[j]) != Page(ops[i])
  {
    hide FileWord;
    forall j | 0 <= j < i ensures Page(ops[j]) in PagesOf(ops, i) {
    }
  }

  /** wrM, rdM or add2M. */
  method Perform(p: Pager, op: Access) returns (value: Word, ghost w: int, ghost c: Words)
    requires p.Valid() && Alone(Page(op), p.flat.touched)
    modifies p, p.vmap, p.pmap, p.pagstate, p.tcnt, p.M
    ensures p.Valid() && w != Page(op) && p.flat == Do(Enter(old(p.flat), w, Page(op), c), op)
    ensures p.flat.touched == old(p.flat.touched) + {Page(op)}
    ensures (op.Read? ==> value == p.flat.now[op.addr]) && (!op.Write? ==> p.vmap[Page(op)] != -1)
  {
    hide Ok, Alone, Overlay;
    value := 0;
    match op {
      case Write(a, x) => w, c := p.WrM(a, x);
      case Read(a) => value, w, c := p.RdM(a);
      case Add(a, x) => w, c := p.Add2M(a, x);
    }
  }

  lemma ReadsNext(f: Flat, g: Flat, op: Access, w: int, value: Word)
    requires Agree(Step(f, op, w), g) && w != Page(op) && (op.Read? ==> value == g.now[op.addr])
    ensures op.Read? ==> value == f.now[op.addr]
  {
  }

  predicate Stores(op: Access, a: Addr) {
    !op.Read? && op.addr == a
  }

  /** Whatever add2M does to other addresses, one that nobody stores to keeps its value. */
  lemma {:induction false} Settled(f: Flat, ops: seq<Access>, outs: seq<int>, a: Addr)
    requires |outs| == |ops| && f.now[a] == f.kept[a] && forall i :: 0 <= i < |ops| ==> !Stores(ops[i], a)
    ensures var f' := After(f, ops, outs); f'.now[a] == f'.kept[a] == f.now[a]
    decreases |ops|
  {
    if ops != [] {
      var k := |ops| - 1;
      Settled(f, ops[..k], outs[..k], a);
    }
  }

  lemma {:induction false} AfterSplit(f: Flat, ops: seq<Access>, outs: seq<int>, k: nat)
    requires |outs| == |ops| && k <= |ops|
    ensures After(f, ops, outs) == After(After(f, ops[..k], outs[..k]), ops[k..], outs[k..])
    decreases |ops| - k
  {
    hide Step;
    if k == |ops| {
      assert ops[..k] == ops && outs[..k] == outs;
    } else {
      var n := |ops| - 1;
      AfterSplit(f, ops[..n], outs[..n], k);
      assert ops[..n][..k] == ops[..k] && outs[..n][..k] == outs[..k];
      assert ops[k..][..n - k] == ops[..n][k..] && outs[k..][..n - k] == outs[..n][k..];
    }
  }

  /** An address reads as last written, if there was no add2M to it since. */
  lemma LastWritten(f: Flat, ops: seq<Access>, outs: seq<int>, k: nat)
    requires |outs| == |ops| && k < |ops| && ops[k].Write?
    requires forall i :: k < i < |ops| ==> !Stores(ops[i], ops[k].addr)
    ensures After(f, ops, outs).now[ops[k].addr] == ops[k].data
  {
    hide Step;
    AfterSplit(f, ops, outs, k + 1);
    var g := After(f, ops[..k + 1], outs[..k + 1]);
    assert ops[..k + 1][..k] == ops[..k] && outs[..k + 1][..k] == outs[..k];
    WriteKept(After(f, ops[..k], outs[..k]), ops[k], outs[k]);
    Settled(g, ops[k + 1..], outs[k + 1..], ops[k].addr);
  }

  lemma WriteKept(f: Flat, op: Access, w: int)
    requires op.Write?
    ensures Step(f, op, w).now[op.addr] == Step(f, op, w).kept[op.addr] == op.data
  {
  }

  /** No store to address a between accesses k and i. */
  predicate Quiet(ops: seq<Access>, a: Addr, k: nat, i: nat)
    requires i <= |ops|
  {
    forall j :: k < j < i ==> !Stores(ops[j], a)
  }

  predicate NoSums(ops: seq<Access>, a: Addr) {
    forall j :: 0 <= j < |ops| ==> !(ops[j].Add? && ops[j].addr == a)
  }

  /** What a read is sure to find: what was written last, if it was written; and what the read before found, if there
      was no store since and no add2M to the address at all. */
  ghost predicate Finds(ops: seq<Access>, values: seq<Word>, k: nat, i: nat)
    requires k < i < |ops| && |values| == |ops|
  {
    ops[i].Read? && ops[k].addr == ops[i].addr && Quiet(ops, ops[i].addr, k, i) ==>
      && (ops[k].Write? ==> values[i] == ops[k].data)
      && (ops[k].Read? && NoSums(ops[..k], ops[k].addr) ==> values[i] == values[k])
  }

  lemma {:induction false} NothingLoose(init: Words, ops: seq<Access>, outs: seq<int>, a: Addr)
    requires |outs| == |ops| && NoSums(ops, a)
    ensures var f := After(Start(init), ops, outs); f.now[a] == f.kept[a]
    decreases |ops|
  {
    if ops != [] {
      var k := |ops| - 1;
      NothingLoose(init, ops[..k], outs[..k], a);
    }
  }

  lemma FindsOk(init: Words, ops: seq<Access>, outs: seq<int>, values: seq<Word>, k: nat, i: nat)
    requires k < i < |ops| == |outs| == |values| && Reads(init, ops, outs, values, i) && Reads(init, ops, outs, values, k)
    ensures Finds(ops, values, k, i)
  {
    hide After;
    var a := ops[i].addr;
    if ops[i].Read? && ops[k].addr == a && Quiet(ops, a, k, i) {
      var f, now := Start(init), After(Start(init), ops[..k], outs[..k]);
      if ops[k].Write? {
        LastWritten(f, ops[..i], outs[..i], k);
      } else if ops[k].Read? && NoSums(ops[..k], a) {
        NothingLoose(init, ops[..k], outs[..k], a);
        AfterSplit(f, ops[..i], outs[..i], k);
        assert ops[..i][..k] == ops[..k] && outs[..i][..k] == outs[..k];
        forall j | 0 <= j < i - k ensures !Stores(ops[..i][k..][j], a) {
          assert ops[..i][k..][j] == ops[k + j];
        }
        Settled(now, ops[..i][k..], outs[..i][k..], a);
      }
    }
  }

  /** Any run of accesses, with any number of buffers, reads like a flat array: what it began as is what its pages
      held when they were first used, and a page replaced goes back to what is kept of it, which differs only where
      add2M left a sum on a page that was not firm.  Whatever pages are replaced, what was written last is read. */
  method Run(pblks: nat, ops: seq<Access>) returns (values: seq<Word>, ghost init: Words, ghost outs: seq<int>)
    requires 0 < pblks <= VBLKS && Places(ops)
    ensures |values| == |outs| == |ops|
    ensures forall i :: 0 <= i < |ops| ==> outs[i] != Page(ops[i]) && Reads(init, ops, outs, values, i)
    ensures forall k, i :: 0 <= k < i < |ops| ==> Finds(ops, values, k, i)
  {
    hide Ok, FileWord, Step, Overlay, Reads, Agree, Do, Enter, Sofar, PagesOf, Places, Page, Finds;
    var p := new Pager(pblks);
    values, init, outs := [], Zeros(), [];
    ghost var f := Start(init);
    SofarNone(init, ops);
    Nothing(p.flat, f, ops);
    var i := 0;
    while i < |ops|
      invariant 0 <= i <= |ops| && |outs| == |values| == i && p.Valid() && fresh(p)
      invariant fresh(p.M) && fresh(p.vmap) && fresh(p.pmap) && fresh(p.tcnt) && fresh(p.pagstate)
      invariant p.flat.touched == f.touched == PagesOf(ops, i) && Agree(f, p.flat) && Sofar(init, ops, outs, values, f)
    {
      PagesMore(ops, i);
      ghost var page, g := Page(ops[i]), p.flat;
      var value;
      ghost var w, c;
      value, w, c := Perform(p, ops[i]);
      AgreeStep(f, g, ops[i], w, c);
      if page !in f.touched {
        SofarTouch(init, ops, outs, values, f, page, c);
        init, f := Overlay(init, page, c), Fill(f, page, c);
      }
      ReadsNext(f, p.flat, ops[i], w, value);
      SofarMore(init, ops, outs, values, f, w, value);
      Same(Step(f, ops[i], w), p.flat);
      values, outs, f, i := values + [value], outs + [w], Step(f, ops[i], w), i + 1;
    }
    SofarAll(init, ops, outs, values, f);
    forall k, i | 0 <= k < i < |ops| ensures Finds(ops, values, k, i) {
      FindsOk(init, ops, outs, values, k, i);
    }
  }

  lemma Nothing(g: Flat, f: Flat, ops: seq<Access>)
    requires g.touched == f.touched == {} && g.firm == f.firm == {}
    ensures Agree(f, g) && f.touched == PagesOf(ops, 0)
  {
  }

  lemma Same(f: Flat, g: Flat)
    requires Agree(f, g)
    ensures f.touched == g.touched
  {
  }

  // ------------------------------------------------------------------ what a run means

  /** A plain array. */
  function Plain(init: Words, ops: seq<Access>): Words
    decreases |ops|
  {
    if ops == [] then init else
      var k := |ops| - 1;
      Stored(Plain(init, ops[..k]), ops[k])
  }

  function Stored(m: Words, op: Access): Words {
    match op
    case Read(_) => m
    case Write(a, x) => m[a := x]
    case Add(a, x) => m[a := Sum(m[a], x)]
  }

  /** add2M only ever finds firm pages. */
  ghost predicate FirmAdds(f: Flat, ops: seq<Access>, outs: seq<int>)
    requires |outs| == |ops|
  {
    forall i :: 0 <= i < |ops| && ops[i].Add? ==> Page(ops[i]) in Come(After(f, ops[..i], outs[..i]), outs[i], Page(ops[i])).firm
  }

  /** Then memory is a plain array. */
  lemma {:induction false} PlainArray(init: Words, ops: seq<Access>, outs: seq<int>)
    requires |outs| == |ops| && FirmAdds(Start(init), ops, outs)
    ensures var f := After(Start(init), ops, outs); f.now == f.kept == Plain(init, ops)
    decreases |ops|
  {
    if ops != [] {
      var k := |ops| - 1;
      assert FirmAdds(Start(init), ops[..k], outs[..k]) by {
        forall i | 0 <= i < k && ops[i].Add?
          ensures Page(ops[i]) in Come(After(Start(init), ops[..k][..i], outs[..k][..i]), outs[i], Page(ops[i])).firm
        {
          assert ops[..k][..i] == ops[..i] && outs[..k][..i] == outs[..i];
        }
      }
      PlainArray(init, ops[..k], outs[..k]);
      SameStep(After(Start(init), ops[..k], outs[..k]), ops[k], outs[k]);
    }
  }

  lemma SameStep(f: Flat, op: Access, w: int)
    requires f.now == f.kept && (op.Add? ==> Page(op) in Come(f, w, Page(op)).firm)
    ensures Step(f, op, w).now == Step(f, op, w).kept == Stored(f.now, op)
  {
    var m := f.now;
    assert Overlay(m, w, m) == m;
    if op.Write? {
      assert Overlay(m, Page(op), m[op.addr := op.data]) == m[op.addr := op.data];
    }
  }

  /** What has become of a page with a sum on it that is not kept. */
  datatype Fate = Open | Saved | Lost

  function FateOf(ops: seq<Access>, outs: seq<int>, page: nat): Fate
    requires |outs| == |ops|
    decreases |ops|
  {
    if ops == [] then Open else
      var k := |ops| - 1;
      var before := FateOf(ops[..k], outs[..k], page);
      if before != Open then before
      else if outs[k] == page then Lost
      else if ops[k].Write? && Page(ops[k]) == page then Saved else Open
  }

  /** A sum that is not kept is there until its page is replaced or written to: it stays if the page is written to
      first, and it is lost if and only if the page is replaced first, which brings the old value back. */
  lemma {:induction false} SumFate(f: Flat, ops: seq<Access>, outs: seq<int>, a: Addr)
    requires |outs| == |ops| && forall i :: 0 <= i < |ops| ==> !Stores(ops[i], a) && outs[i] != Page(ops[i])
    ensures
      var f' := After(f, ops, outs);
      match FateOf(ops, outs, a / BLKSIZE)
      case Open => f'.now[a] == f.now[a] && f'.kept[a] == f.kept[a]
      case Saved => f'.now[a] == f'.kept[a] == f.now[a]
      case Lost => f'.now[a] == f'.kept[a] == f.kept[a]
    decreases |ops|
  {
    if ops != [] {
      var k := |ops| - 1;
      SumFate(f, ops[..k], outs[..k], a);
    }
  }

  /** When a page is firm: after its last replacement it was written to, or it was used for the first time and came
      in over another page. */
  ghost predicate FirmSince(touched: set<nat>, ops: seq<Access>, outs: seq<int>, page: nat, j: nat)
    requires |outs| == |ops| && j < |ops|
  {
    && Page(ops[j]) == page && (forall i :: j < i < |ops| ==> outs[i] != page)
    && (ops[j].Write? || (outs[j] != -1 && page !in touched && forall i :: 0 <= i < j ==> Page(ops[i]) != page))
  }

  lemma FirmStep(f: Flat, op: Access, w: int, page: nat)
    requires w != Page(op)
    ensures var g := Step(f, op, w);
      && g.touched == f.touched + {Page(op)}
      && (page in g.firm <==> (page in f.firm && page != w) || (page == Page(op) && (op.Write? || (w != -1 && page !in f.touched))))
  {
  }

  lemma {:induction false} FirmExactly(f: Flat, ops: seq<Access>, outs: seq<int>, page: nat)
    requires |outs| == |ops| && f.firm == {} && forall i :: 0 <= i < |ops| ==> outs[i] != Page(ops[i])
    ensures page in After(f, ops, outs).touched <==> page in f.touched || exists i :: 0 <= i < |ops| && Page(ops[i]) == page
    ensures page in After(f, ops, outs).firm <==> exists j :: 0 <= j < |ops| && FirmSince(f.touched, ops, outs, page, j)
    decreases |ops|
  {
    hide Step, Page;
    if ops != [] {
      var k := |ops| - 1;
      var g := After(f, ops[..k], outs[..k]);
      FirmExactly(f, ops[..k], outs[..k], page);
      FirmStep(g, ops[k], outs[k], page);
      FirmBefore(f.touched, ops, outs, page);
      assert FirmSince(f.touched, ops, outs, page, k) <==>
             Page(ops[k]) == page && (ops[k].Write? || (outs[k] != -1 && page !in g.touched));
    }
  }

  /** A page is firm since an access before the last one if it was firm before the last one and is not replaced. */
  lemma FirmBefore(touched: set<nat>, ops: seq<Access>, outs: seq<int>, page: nat)
    requires |outs| == |ops| > 0
    ensures var k := |ops| - 1;
      (exists j :: 0 <= j < k && FirmSince(touched, ops, outs, page, j)) <==>
        outs[k] != page && exists j :: 0 <= j < k && FirmSince(touched, ops[..k], outs[..k], page, j)
  {
    var k := |ops| - 1;
    if j :| 0 <= j < k && FirmSince(touched, ops[..k], outs[..k], page, j) && outs[k] != page {
      assert FirmSince(touched, ops, outs, page, j);
    }
    if j :| 0 <= j < k && FirmSince(touched, ops, outs, page, j) {
      assert FirmSince(touched, ops[..k], outs[..k], page, j);
    }
  }

  /** With one buffer two pages are never in memory together, and a page that is not reads as what is kept. */
  lemma OneBuffer(s: Mem, f: Flat, a: Addr, page: nat)
    requires Ok(s, f.now, f.kept, f.touched) && s.pblks == 1 && page < VBLKS && s.vmap[page] != -1
    requires a / BLKSIZE in f.touched && a / BLKSIZE != page
    ensures s.vmap[a / BLKSIZE] == -1 && f.now[a] == f.kept[a]
  {
    IsHeld(s, f.now, f.kept, f.touched, a);
  }

  /** Two pages 32 apart, one buffer: page p is dirty, and a word is written on page q, which was never used; when p
      is read again it has that word, whatever was there before. */
  lemma Clash(s: Mem, p: nat, q: nat, k: nat, x: Word)
    requires Shape(s) && Inverse(s) && s.pblks == 1 && s.pmap[0] == p && s.state[p] == Dirty && k < BLKSIZE
    requires p < VBLKS && q < VBLKS && p != q && p % 32 == q % 32 && s.state[q] == Never
    ensures
      var t := Replace(PutOut(s, 0), 0, q);
      && Inverse(t) && t.vmap[q] == 0
      && var u := Poke(t, q * BLKSIZE + k, x, true);
      Inverse(u) && u.pmap[0] == q && Inverse(PutOut(u, 0)) && Replace(PutOut(u, 0), 0, p).m[k] == x
  {
    hide FileWord, Splice, PutOut, Replace;
    OutAndIn(s, q, k);
    var t := Replace(PutOut(s, 0), 0, q);
    assert (q * BLKSIZE + k) / BLKSIZE == q && (q * BLKSIZE + k) % BLKSIZE == k;
    OutAndIn(Poke(t, q * BLKSIZE + k, x, true), p, k);
  }

  /** With one buffer: its page goes out, and another that shares its place in the file comes in. */
  lemma OutAndIn(s: Mem, page: nat, k: nat)
    requires Shape(s) && Inverse(s) && s.pblks == 1 && s.pmap[0] != -1 && k < BLKSIZE
    requires page < VBLKS && page != s.pmap[0] && page % 32 == s.pmap[0] % 32
    ensures var o := PutOut(s, 0); Shape(o) && Inverse(o) && o.pblks == 1 && o.pmap[0] == s.pmap[0]
    ensures var t := Replace(PutOut(s, 0), 0, page);
      && Shape(t) && Inverse(t) && t.pblks == 1 && t.vmap[page] == 0 && t.pmap[0] == page
      && t.state == s.state[s.pmap[0] := Clean] && (s.state[page] == Clean ==> t.m[k] == s.m[k])
  {
    hide FileWord, Splice, Block;
    SamePlace(page, s.pmap[0]);
    PutOutWord(s, 0, k);
    assert s.vmap[page] == -1;
    ReplaceWord(PutOut(s, 0), 0, page, page, k);
  }

  lemma FirstTwo(touched: set<nat>)
    requires touched <= {0, 1}
    ensures Alone(0, touched) && Alone(1, touched)
  {
    SamePlace(0, 1);
  }

  lemma Entered(f: Flat, w: int, page: nat, c: Words, a: Addr)
    requires a / BLKSIZE in f.touched && w != page
    ensures var g := Enter(f, w, page, c);
      && g.touched == f.touched + {page} && g.kept[a] == f.kept[a]
      && (a / BLKSIZE == page ==> g.now[a] == f.now[a] && (page !in f.firm ==> page !in g.firm))
  {
  }

  /** What an access may do: some page leaves, its own is in memory, and a read gives what is there. */
  ghost predicate Goes(f: Flat, op: Access, value: Word, g: Flat) {
    && (exists w, c :: w != Page(op) && g == Do(Enter(f, w, Page(op), c), op))
    && (op.Read? ==> value == g.now[op.addr])
  }

  /** 5 is written, its page goes out and comes back in, 1 is added, and the page goes out and is read again. */
  function Lossy(): (ops: seq<Access>)
    ensures |ops| == 6
  {
    [Write(0, 5), Read(1024), Add(0, 1), Read(0), Read(1024), Read(0)]
  }

  /** One access to one of the first two pages. */
  method Go(p: Pager, op: Access) returns (value: Word, ghost w: int, ghost c: Words)
    requires p.Valid() && p.flat.touched <= {0, 1} && Page(op) <= 1
    modifies p, p.vmap, p.pmap, p.pagstate, p.tcnt, p.M
    ensures p.Valid() && w != Page(op) && p.flat == Do(Enter(old(p.flat), w, Page(op), c), op)
    ensures p.flat.touched == old(p.flat.touched) + {Page(op)} && Goes(old(p.flat), op, value, p.flat)
    ensures (op.Read? ==> value == p.flat.now[op.addr]) && (!op.Write? ==> p.vmap[Page(op)] != -1)
  {
    hide Ok, Alone, Overlay, Enter, Do;
    FirstTwo(p.flat.touched);
    value, w, c := Perform(p, op);
  }

  /** With one buffer: a page comes back in, 1 is added, the page goes out again, and the old value is read. */
  method AddAndLose(p: Pager) returns (values: seq<Word>, ghost flats: seq<Flat>)
    requires p.Valid() && p.pblks == 1 && p.flat.touched == {0, 1} && p.vmap[0] == -1 && p.flat.now[0] == p.flat.kept[0]
    modifies p, p.vmap, p.pmap, p.pagstate, p.tcnt, p.M
    ensures |values| == 4 && |flats| == 5 && flats[0] == old(p.flat) && flats[4] == p.flat
    ensures forall i :: 0 <= i < 4 ==> Goes(flats[i], Lossy()[i + 2], values[i], flats[i + 1])
    ensures values[1] == Sum(old(p.flat.now[0]), 1) && values[3] == old(p.flat.now[0])
  {
    hide Ok, FileWord, Alone, FirmPages, Splice, Zeros, Enter, Overlay, Sum, Goes;
    ghost var w, c;
    ghost var f := p.flat;
    assert 0 !in f.firm;
    var v0, v1, v2, v3;
    v0, w, c := Go(p, Add(0, 1));
    flats := [f, p.flat];
    Entered(f, w, 0, c, 0);
    f := p.flat;
    v1, w, c := Go(p, Read(0));
    flats := flats + [p.flat];
    Entered(f, w, 0, c, 0);
    f := p.flat;
    v2, w, c := Go(p, Read(1024));
    flats := flats + [p.flat];
    Entered(f, w, 1, c, 0);
    OneBuffer(p.Now(), p.flat, 0, 1);
    f := p.flat;
    v3, w, c := Go(p, Read(0));
    flats := flats + [p.flat];
    Entered(f, w, 0, c, 0);
    values := [v0, v1, v2, v3];
  }

  /** With one buffer, the run of accesses Lossy reads 6 and then 5. */
  method SumIsLost() returns (values: seq<Word>, ghost flats: seq<Flat>)
    ensures |values| == 6 && |flats| == 7 && flats[0].touched == {} && flats[0].firm == {}
    ensures forall i :: 0 <= i < 6 ==> Goes(flats[i], Lossy()[i], values[i], flats[i + 1])
    ensures values[3] == 6 && values[5] == 5
  {
    hide Ok, FileWord, Alone, FirmPages, Splice, Zeros, Enter, Overlay, Goes;
    var p := new Pager(1);
    ghost var w, c;
    ghost var f, start := p.flat, p.flat;
    var v0, v1;
    v0, w, c := Go(p, Write(0, 5));
    Wrote(f, w, c, 5);
    f := p.flat;
    v1, w, c := Go(p, Read(1024));
    Entered(f, w, 1, c, 0);
    OneBuffer(p.Now(), p.flat, 0, 1);
    ghost var rest;
    values, rest := AddAndLose(p);
    values, flats := [v0, v1] + values, [start, f] + rest;
  }

  lemma Wrote(f: Flat, w: int, c: Words, x: Word)
    ensures var g := Do(Enter(f, w, 0, c), Write(0, x)); g.now[0] == g.kept[0] == x && g.touched == f.touched + {0}
  {
  }
}
