/** BCPL INTCODE as items of a section, and the plain two-pass way to assemble it: first find out where every
    label is, then write the words.  Applications/BCPL/iclink.c does it in one pass (module Linker). */
module Intcode {
  type Word = n: int | 0 <= n < 65536

  const VSIZE: nat := 15000
  const MGLOB: nat := 1
  const MPROG: nat := 402
  const LABELS: nat := 501

  const FUNCTION: nat := 8192
  const IBIT: nat := 4096
  const PBIT: nat := 2048
  const GBIT: nat := 1024
  const DBIT: nat := 512
  const ABITS: nat := 512

  datatype Operand = Literal(a: Word) | Ref(n: nat)

  /** f is the function, 0 to 7 for L S A J T F K X. */
  datatype Item =
    | Mark(n: nat)
    | Character(c: Word)
    | Data(w: Word)
    | DataRef(n: nat)
    | Global(g: Word, n: nat)
    | Code(f: nat, ind: bool, stack: bool, global: bool, operand: Operand)

  /** M, P and Cp of the assembler. */
  datatype State = State(mem: seq<Word>, p: nat, cp: nat)

  function Opcode(f: nat, ind: bool, stack: bool, global: bool): (w: Word)
    requires f < 8
  {
    f * FUNCTION + (if ind then IBIT else 0) + (if stack then PBIT else 0) + (if global then GBIT else 0)
  }

  function GlobalCell(g: Word): Word {
    (g + MGLOB) % 65536
  }

  // ------------------------------------------------------------------ pass one

  /** How many words the item adds to the code, and where characters go next. */
  function Size(item: Item, cp: nat): nat {
    match item
    case Mark(_) => 0
    case Character(_) => if cp == 0 then 1 else 0
    case Data(_) => 1
    case DataRef(_) => 1
    case Global(_, _) => 0
    case Code(_, _, _, _, operand) => if operand.Literal? && operand.a < ABITS then 1 else 2
  }

  function NextCp(item: Item, cp: nat): nat {
    match item
    case Character(_) => if cp == 0 then 8 else 0
    case Global(_, _) => cp
    case _ => 0
  }

  function Labels(items: seq<Item>, p: nat, cp: nat): map<nat, nat> {
    if items == [] then map[]
    else
      var rest := Labels(items[1..], p + Size(items[0], cp), NextCp(items[0], cp));
      if items[0].Mark? then rest[items[0].n := p] else rest
  }

  function End(items: seq<Item>, p: nat, cp: nat): (e: nat)
    ensures p <= e
  {
    if items == [] then p else End(items[1..], p + Size(items[0], cp), NextCp(items[0], cp))
  }

  // ------------------------------------------------------------------ pass two

  predicate StateOk(s: State) {
    |s.mem| == VSIZE && 1 <= s.p <= VSIZE && (s.cp == 0 || (s.cp == 8 && s.p >= 2))
  }

  predicate ItemOk(item: Item, labels: map<nat, nat>) {
    match item
    case Mark(n) => n < LABELS
    case Character(_) => true
    case Data(_) => true
    case DataRef(n) => n < LABELS && n in labels
    case Global(g, n) => n < LABELS && n in labels && 1 <= GlobalCell(g) < VSIZE
    case Code(f, _, _, _, operand) => f < 8 && (operand.Ref? ==> operand.n < LABELS && operand.n in labels)
  }

  predicate LabelsOk(labels: map<nat, nat>) {
    forall n :: n in labels ==> 1 <= labels[n] <= VSIZE
  }

  /** One item with every label known. */
  function Put(s: State, item: Item, labels: map<nat, nat>): (t: State)
    requires StateOk(s) && ItemOk(item, labels) && LabelsOk(labels) && s.p + Size(item, s.cp) <= VSIZE
    ensures StateOk(t) && t.p == s.p + Size(item, s.cp) && t.cp == NextCp(item, s.cp)
  {
    match item
    case Mark(_) => s.(cp := 0)
    case Character(c) =>
      if s.cp == 0 then State(s.mem[s.p := c * 256 % 65536], s.p + 1, 8)
      else
        var was: int := s.mem[s.p - 1];
        State(s.mem[s.p - 1 := (was + c) % 65536], s.p, 0)
    case Data(w) => State(s.mem[s.p := w], s.p + 1, 0)
    case DataRef(n) => State(s.mem[s.p := labels[n]], s.p + 1, 0)
    case Global(g, n) => s.(mem := s.mem[GlobalCell(g) := labels[n]])
    case Code(f, ind, stack, global, operand) =>
      var w: int := Opcode(f, ind, stack, global);
      match operand
      case Literal(a) =>
        if a < ABITS then State(s.mem[s.p := w + a], s.p + 1, 0)
        else State(s.mem[s.p := w + DBIT][s.p + 1 := a], s.p + 2, 0)
      case Ref(n) => State(s.mem[s.p := w + DBIT][s.p + 1 := labels[n]], s.p + 2, 0)
  }

  predicate ItemsOk(items: seq<Item>, labels: map<nat, nat>) {
    forall i :: 0 <= i < |items| ==> ItemOk(items[i], labels)
  }

  function PutAll(s: State, items: seq<Item>, labels: map<nat, nat>): (t: State)
    requires StateOk(s) && ItemsOk(items, labels) && LabelsOk(labels) && End(items, s.p, s.cp) <= VSIZE
    ensures StateOk(t) && t.p == End(items, s.p, s.cp)
    decreases |items|
  {
    if items == [] then s else PutAll(Put(s, items[0], labels), items[1..], labels)
  }

  // ------------------------------------------------------------------ sections

  /** No label is set twice. */
  predicate SetOnce(items: seq<Item>) {
    items == [] || ((items[0].Mark? ==> Unset(items[1..], items[0].n)) && SetOnce(items[1..]))
  }

  predicate Unset(items: seq<Item>, n: nat) {
    forall i :: 0 <= i < |items| ==> items[i] != Mark(n)
  }

  /** The global cells filled by items are each filled once, are none of used, and are not in the code. */
  predicate Fresh(items: seq<Item>, used: set<nat>, lo: nat, hi: nat) {
    items == [] ||
    if items[0].Global? then
      var a := GlobalCell(items[0].g);
      a !in used && !(lo <= a < hi) && Fresh(items[1..], used + {a}, lo, hi)
    else Fresh(items[1..], used, lo, hi)
  }

  /** A section as the BCPL compiler writes it, to be placed at p. */
  predicate SectionOk(items: seq<Item>, p: nat) {
    && 1 <= p && End(items, p, 0) <= VSIZE
    && SetOnce(items) && Fresh(items, {}, p, End(items, p, 0))
    && ItemsOk(items, Labels(items, p, 0))
  }

  lemma {:induction false} LabelsInCode(items: seq<Item>, p: nat, cp: nat)
    requires 1 <= p && End(items, p, cp) <= VSIZE
    ensures LabelsOk(Labels(items, p, cp))
    ensures forall n :: n in Labels(items, p, cp) ==> p <= Labels(items, p, cp)[n]
    ensures forall n :: n in Labels(items, p, cp) <==> !Unset(items, n)
  {
    if items != [] {
      LabelsInCode(items[1..], p + Size(items[0], cp), NextCp(items[0], cp));
      forall n ensures n in Labels(items, p, cp) <==> !Unset(items, n) {
        if !Unset(items[1..], n) {
          var i :| 0 <= i < |items[1..]| && items[1..][i] == Mark(n);
          assert items[i + 1] == Mark(n);
        }
      }
    }
  }

  /** The two-pass assembler. */
  function TwoPass(s: State, items: seq<Item>): (t: State)
    requires |s.mem| == VSIZE && SectionOk(items, s.p)
    ensures |t.mem| == VSIZE && t.p == End(items, s.p, 0)
  {
    LabelsInCode(items, s.p, 0);
    PutAll(s.(cp := 0), items, Labels(items, s.p, 0))
  }

  // ------------------------------------------------------------------ what is left of a section

  /** What the rest of a section still promises: its items are in order, labels not yet reached are where labels
      says, and its code and global cells do not wait and are not used already. */
  ghost predicate RestOk(items: seq<Item>, p: nat, cp: nat, used: set<nat>, lo: nat, hi: nat, labels: map<nat, nat>) {
    && ItemsOk(items, labels) && SetOnce(items) && Fresh(items, used, lo, hi)
    && 1 <= lo <= p && End(items, p, cp) == hi <= VSIZE && (cp == 0 || (cp == 8 && lo < p))
    && (forall n :: n in Labels(items, p, cp) ==> n in labels && labels[n] == Labels(items, p, cp)[n])
  }

  function Used(item: Item, used: set<nat>): set<nat> {
    if item.Global? then used + {GlobalCell(item.g)} else used
  }

  lemma RestStep(items: seq<Item>, p: nat, cp: nat, used: set<nat>, lo: nat, hi: nat, labels: map<nat, nat>)
    requires RestOk(items, p, cp, used, lo, hi, labels) && items != []
    ensures ItemOk(items[0], labels) && p + Size(items[0], cp) <= hi
    ensures RestOk(items[1..], p + Size(items[0], cp), NextCp(items[0], cp), Used(items[0], used), lo, hi, labels)
    ensures items[0].Global? ==> GlobalCell(items[0].g) !in used && !(lo <= GlobalCell(items[0].g) < hi)
    ensures items[0].Mark? ==> items[0].n in labels && labels[items[0].n] == p
    ensures forall n :: Unset(items, n) <==> items[0] != Mark(n) && Unset(items[1..], n)
    ensures items[0].Mark? ==> Unset(items[1..], items[0].n)
    ensures hi <= VSIZE && ItemsOk(items[1..], labels) && End(items[1..], p + Size(items[0], cp), NextCp(items[0], cp)) == hi
  {
    var rest := items[1..];
    forall n ensures Unset(items, n) <==> items[0] != Mark(n) && Unset(rest, n) {
      assert Unset(items, n) ==> items[0] != Mark(n) && forall i :: 0 <= i < |rest| ==> rest[i] == items[i + 1] && rest[i] != Mark(n);
      assert forall i :: 1 <= i < |items| ==> items[i] == rest[i - 1];
    }
    RestLabels(items, p, cp);
    assert forall i :: 0 <= i < |rest| ==> rest[i] == items[i + 1];
    assert ItemsOk(rest, labels);
  }

  /** The labels still to come stay where they are. */
  lemma RestLabels(items: seq<Item>, p: nat, cp: nat)
    requires items != [] && SetOnce(items)
    ensures
      var rest := Labels(items[1..], p + Size(items[0], cp), NextCp(items[0], cp));
      forall n :: n in rest ==> n in Labels(items, p, cp) && Labels(items, p, cp)[n] == rest[n]
  {
    LabelsAreMarks(items[1..], p + Size(items[0], cp), NextCp(items[0], cp));
  }

  lemma {:induction false} LabelsAreMarks(items: seq<Item>, p: nat, cp: nat)
    ensures forall n :: n in Labels(items, p, cp) ==> !Unset(items, n)
  {
    if items != [] {
      LabelsAreMarks(items[1..], p + Size(items[0], cp), NextCp(items[0], cp));
      forall n | n in Labels(items, p, cp) ensures !Unset(items, n) {
        if items[0] != Mark(n) {
          assert !Unset(items[1..], n);
          var i :| 0 <= i < |items[1..]| && items[1..][i] == Mark(n);
          assert items[i + 1] == Mark(n);
        }
      }
    }
  }

  /** The promises of a whole section. */
  lemma SectionStart(items: seq<Item>, p: nat, s: State)
    requires SectionOk(items, p) && s.p == p && s.cp == 0 && |s.mem| == VSIZE
    ensures
      var labels := Labels(items, p, 0);
      && RestOk(items, p, 0, {}, p, End(items, p, 0), labels) && LabelsOk(labels) && StateOk(s)
      && PutAll(s, items, labels) == TwoPass(s, items)
      && (forall n :: n in labels ==> !Unset(items, n))
      && items[0..] == items
  {
    LabelsInCode(items, p, 0);
    assert s.(cp := 0) == s;
  }

  // ------------------------------------------------------------------ reading the result back

  /** The address where item k is placed. */
  function AddressOf(items: seq<Item>, k: nat, p: nat, cp: nat): nat
    requires k <= |items|
    decreases k
  {
    if k == 0 then p else AddressOf(items[1..], k - 1, p + Size(items[0], cp), NextCp(items[0], cp))
  }

  /** Whether the word of the characters before item k has room for one more. */
  function CpAt(items: seq<Item>, k: nat, cp: nat): nat
    requires k <= |items|
    decreases k
  {
    if k == 0 then cp else CpAt(items[1..], k - 1, NextCp(items[0], cp))
  }

  datatype Instruction = Instruction(f: nat, ind: bool, stack: bool, global: bool, d: Word, next: nat)

  /** The fetch and decode of interpret. */
  function Decode(mem: seq<Word>, c: nat): Instruction
    requires c < |mem|
  {
    var w := mem[c];
    Instruction(w / FUNCTION, w / IBIT % 2 == 1, w / PBIT % 2 == 1, w / GBIT % 2 == 1,
                if w / DBIT % 2 == 0 then w % ABITS else if c + 1 < |mem| then mem[c + 1] else 0,
                if w / DBIT % 2 == 0 then c + 1 else c + 2)
  }

  /** What the item says. */
  function Meant(item: Item, labels: map<nat, nat>, c: nat): Instruction
    requires item.Code? && ItemOk(item, labels) && LabelsOk(labels)
  {
    Instruction(item.f, item.ind, item.stack, item.global,
                if item.operand.Literal? then item.operand.a else labels[item.operand.n], c + Size(item, 0))
  }

  lemma OpcodeBits(f: nat, ind: bool, stack: bool, global: bool, a: nat)
    requires f < 8 && a < 1024
    ensures
      var w: int := Opcode(f, ind, stack, global) + a;
      && w / FUNCTION == f && (w / IBIT % 2 == 1 <==> ind) && (w / PBIT % 2 == 1 <==> stack)
      && (w / GBIT % 2 == 1 <==> global) && w / DBIT % 2 == a / DBIT && w % ABITS == a % ABITS
  {
    FieldsOf(f, if ind then 1 else 0, if stack then 1 else 0, if global then 1 else 0, a);
  }

  lemma FieldsOf(f: nat, i: nat, p: nat, g: nat, a: nat)
    requires i < 2 && p < 2 && g < 2 && a < 1024
    ensures
      var w := f * FUNCTION + i * IBIT + p * PBIT + g * GBIT + a;
      && w / FUNCTION == f && w / IBIT % 2 == i && w / PBIT % 2 == p && w / GBIT % 2 == g
      && w / DBIT % 2 == a / DBIT && w % ABITS == a % ABITS
  {
    Bit(IBIT, f, i, p * PBIT + g * GBIT + a);
    Bit(PBIT, 2 * f + i, p, g * GBIT + a);
    Bit(GBIT, 4 * f + 2 * i + p, g, a);
    Bit(DBIT, 8 * f + 4 * i + 2 * p + g, a / DBIT, a % DBIT);
  }

  /** One bit of a word from what is above and below it. */
  lemma Bit(unit: nat, above: nat, bit: nat, below: nat)
    requires unit == IBIT || unit == PBIT || unit == GBIT || unit == DBIT
    requires bit < 2 && below < unit
    ensures (above * 2 * unit + bit * unit + below) / unit % 2 == bit
    ensures (above * 2 * unit + bit * unit + below) / (2 * unit) == above
    ensures (above * 2 * unit + bit * unit + below) % unit == below
  {
    if unit == IBIT {
    } else if unit == PBIT {
    } else if unit == GBIT {
    } else {
    }
  }

  lemma DecodePut(s: State, item: Item, labels: map<nat, nat>)
    requires StateOk(s) && item.Code? && ItemOk(item, labels) && LabelsOk(labels) && s.p + Size(item, s.cp) <= VSIZE
    ensures Decode(Put(s, item, labels).mem, s.p) == Meant(item, labels, s.p)
  {
    hide Opcode;
    if item.operand.Literal? && item.operand.a < ABITS {
      OpcodeBits(item.f, item.ind, item.stack, item.global, item.operand.a);
    } else {
      OpcodeBits(item.f, item.ind, item.stack, item.global, DBIT);
    }
  }

  /** Code once written stays, but for the low half of a word of characters still open. */
  lemma {:induction false} CodeKept(s: State, items: seq<Item>, labels: map<nat, nat>, used: set<nat>, lo: nat, hi: nat, a: nat)
    requires StateOk(s) && LabelsOk(labels) && RestOk(items, s.p, s.cp, used, lo, hi, labels)
    requires lo <= a < s.p && (s.cp != 0 ==> a != s.p - 1)
    ensures PutAll(s, items, labels).mem[a] == s.mem[a]
    decreases |items|
  {
    hide RestOk, Opcode;
    if items != [] {
      RestStep(items, s.p, s.cp, used, lo, hi, labels);
      PutKeeps(s, items[0], labels, lo, hi, a);
      CodeKept(Put(s, items[0], labels), items[1..], labels, Used(items[0], used), lo, hi, a);
    }
  }

  lemma PutKeeps(s: State, item: Item, labels: map<nat, nat>, lo: nat, hi: nat, a: nat)
    requires StateOk(s) && LabelsOk(labels) && ItemOk(item, labels) && s.p + Size(item, s.cp) <= hi <= VSIZE
    requires lo <= a < s.p && (s.cp != 0 ==> a != s.p - 1)
    requires item.Global? ==> !(lo <= GlobalCell(item.g) < hi)
    ensures Put(s, item, labels).mem[a] == s.mem[a]
    ensures var t := Put(s, item, labels); a < t.p && (t.cp != 0 ==> a != t.p - 1)
  {
    hide Opcode;
  }

  /** The interpreter finds every instruction of the section, with its operand, where the assembler put it. */
  lemma {:induction false} Decodes(s: State, items: seq<Item>, labels: map<nat, nat>, used: set<nat>, lo: nat, hi: nat, k: nat)
    requires StateOk(s) && LabelsOk(labels) && RestOk(items, s.p, s.cp, used, lo, hi, labels)
    requires k < |items| && items[k].Code?
    ensures
      var c := AddressOf(items, k, s.p, s.cp);
      var mem := PutAll(s, items, labels).mem;
      ItemOk(items[k], labels) && c < VSIZE && Decode(mem, c) == Meant(items[k], labels, c)
    decreases |items|
  {
    hide RestOk, Decode, Meant;
    RestStep(items, s.p, s.cp, used, lo, hi, labels);
    var t := Put(s, items[0], labels);
    if k > 0 {
      assert items[k] == items[1..][k - 1];
      Decodes(t, items[1..], labels, Used(items[0], used), lo, hi, k - 1);
    } else {
      DecodePut(s, items[0], labels);
      LoBelow(items, s.p, s.cp, used, lo, hi, labels);
      CodeKept(t, items[1..], labels, Used(items[0], used), lo, hi, s.p);
      if t.p > s.p + 1 {
        CodeKept(t, items[1..], labels, Used(items[0], used), lo, hi, s.p + 1);
      }
      SameDecode(t.mem, PutAll(t, items[1..], labels).mem, items[0], labels, s.p);
    }
  }

  lemma LoBelow(items: seq<Item>, p: nat, cp: nat, used: set<nat>, lo: nat, hi: nat, labels: map<nat, nat>)
    requires RestOk(items, p, cp, used, lo, hi, labels)
    ensures lo <= p
  {
  }

  lemma SameDecode(mem: seq<Word>, mem': seq<Word>, item: Item, labels: map<nat, nat>, c: nat)
    requires |mem| == |mem'| && c + Size(item, 0) <= |mem| && item.Code? && ItemOk(item, labels) && LabelsOk(labels)
    requires Decode(mem, c) == Meant(item, labels, c) && mem'[c] == mem[c] && (Size(item, 0) == 2 ==> mem'[c + 1] == mem[c + 1])
    ensures Decode(mem', c) == Meant(item, labels, c)
  {
  }

  // ------------------------------------------------------------------ words and global cells

  /** Where interpret gets its operand D from an instruction: the stack frame at p or the globals may be added, and an
      indirect operand is the word found there. */
  function Effective(mem: seq<Word>, i: Instruction, p: Word): (d: Word)
    requires |mem| == VSIZE
  {
    var base: int := i.d;
    var d := (base + (if i.stack then p else 0) + if i.global then MGLOB else 0) % 65536;
    if i.ind && d < VSIZE then mem[d] else d
  }

  /** What a section fills for a global is what an instruction on that global reads. */
  lemma CellReached(mem: seq<Word>, i: Instruction, p: Word)
    requires |mem| == VSIZE && i.global && !i.stack && !i.ind
    ensures GlobalCell(i.d) == Effective(mem, i, p)
  {
  }

  /** A global cell that is filled stays, and so does everything else that the rest of the section does not write. */
  lemma {:induction false} CellKept(s: State, items: seq<Item>, labels: map<nat, nat>, used: set<nat>, lo: nat, hi: nat, a: nat)
    requires StateOk(s) && LabelsOk(labels) && RestOk(items, s.p, s.cp, used, lo, hi, labels)
    requires a < VSIZE && !(lo <= a < hi) && (a in used || forall i :: 0 <= i < |items| && items[i].Global? ==> GlobalCell(items[i].g) != a)
    ensures PutAll(s, items, labels).mem[a] == s.mem[a]
    decreases |items|
  {
    hide RestOk, Opcode;
    if items != [] {
      RestStep(items, s.p, s.cp, used, lo, hi, labels);
      OpenWord(items, s.p, s.cp, used, lo, hi, labels);
      var t := Put(s, items[0], labels);
      FreshCell(items, s.p, s.cp, used, lo, hi, labels);
      assert forall i :: 0 <= i < |items| - 1 ==> items[1..][i] == items[i + 1];
      OutsideKept(s, items[0], labels, lo, hi, a);
      CellKept(t, items[1..], labels, Used(items[0], used), lo, hi, a);
    }
  }

  lemma FreshCell(items: seq<Item>, p: nat, cp: nat, used: set<nat>, lo: nat, hi: nat, labels: map<nat, nat>)
    requires RestOk(items, p, cp, used, lo, hi, labels) && items != []
    ensures items[0].Global? ==> var a := GlobalCell(items[0].g); a !in used && !(lo <= a < hi) && a < VSIZE && items[0].n in labels
    ensures p + Size(items[0], cp) <= hi && SetOnce(items) && ItemsOk(items, labels)
  {
    assert ItemOk(items[0], labels);
    assert End(items, p, cp) == End(items[1..], p + Size(items[0], cp), NextCp(items[0], cp));
  }

  lemma OutsideKept(s: State, item: Item, labels: map<nat, nat>, lo: nat, hi: nat, a: nat)
    requires StateOk(s) && LabelsOk(labels) && ItemOk(item, labels) && lo <= s.p && s.p + Size(item, s.cp) <= hi <= VSIZE
    requires a < VSIZE && !(lo <= a < hi) && (s.cp != 0 ==> lo < s.p) && (item.Global? ==> GlobalCell(item.g) != a)
    ensures Put(s, item, labels).mem[a] == s.mem[a]
  {
    hide Opcode;
  }

  /** Word 1 + g, counted from the globals at 1, gets the address of the label. */
  lemma {:induction false} GlobalFilled(s: State, items: seq<Item>, labels: map<nat, nat>, used: set<nat>, lo: nat, hi: nat, k: nat)
    requires StateOk(s) && LabelsOk(labels) && RestOk(items, s.p, s.cp, used, lo, hi, labels)
    requires k < |items| && items[k].Global?
    ensures
      var g: int := items[k].g;
      var a := (g + 1) % 65536;
      a < VSIZE && !(lo <= a < hi) && items[k].n in labels && PutAll(s, items, labels).mem[a] == labels[items[k].n]
    decreases |items|
  {
    hide RestOk;
    RestStep(items, s.p, s.cp, used, lo, hi, labels);
    FreshCell(items, s.p, s.cp, used, lo, hi, labels);
    var t := Put(s, items[0], labels);
    if k > 0 {
      GlobalFilled(t, items[1..], labels, Used(items[0], used), lo, hi, k - 1);
    } else {
      CellKept(t, items[1..], labels, Used(items[0], used), lo, hi, GlobalCell(items[0].g));
    }
  }

  /** A data word is at its item's address. */
  lemma {:induction false} DataRead(s: State, items: seq<Item>, labels: map<nat, nat>, used: set<nat>, lo: nat, hi: nat, k: nat)
    requires StateOk(s) && LabelsOk(labels) && RestOk(items, s.p, s.cp, used, lo, hi, labels)
    requires k < |items| && (items[k].Data? || items[k].DataRef?)
    ensures
      var c := AddressOf(items, k, s.p, s.cp);
      && c < VSIZE && (items[k].DataRef? ==> items[k].n in labels)
      && PutAll(s, items, labels).mem[c] == if items[k].Data? then items[k].w else labels[items[k].n]
    decreases |items|
  {
    hide RestOk;
    RestStep(items, s.p, s.cp, used, lo, hi, labels);
    FreshCell(items, s.p, s.cp, used, lo, hi, labels);
    var t := Put(s, items[0], labels);
    if k > 0 {
      DataRead(t, items[1..], labels, Used(items[0], used), lo, hi, k - 1);
    } else {
      assert ItemOk(items[0], labels);
      LoBelow(items, s.p, s.cp, used, lo, hi, labels);
      CodeKept(t, items[1..], labels, Used(items[0], used), lo, hi, s.p);
    }
  }

  /** A label is the address of its mark. */
  lemma {:induction false} LabelIs(items: seq<Item>, p: nat, cp: nat, k: nat)
    requires SetOnce(items) && k < |items| && items[k].Mark?
    ensures items[k].n in Labels(items, p, cp) && Labels(items, p, cp)[items[k].n] == AddressOf(items, k, p, cp)
    decreases |items|
  {
    if k > 0 {
      assert items[k] == items[1..][k - 1];
      LabelIs(items[1..], p + Size(items[0], cp), NextCp(items[0], cp), k - 1);
      OnlyMark(items, k);
    }
  }

  lemma OnlyMark(items: seq<Item>, k: nat)
    requires SetOnce(items) && 0 < k < |items| && items[k].Mark?
    ensures items[0] != Mark(items[k].n) && SetOnce(items[1..])
  {
    assert items[1..][k - 1] == items[k];
    assert items[0].Mark? ==> Unset(items[1..], items[0].n);
  }

  /** In an assembled section every data word is what the source said, every global cell has the address of its label,
      and an instruction that names the global finds it there. */
  lemma SectionWords(s: State, items: seq<Item>, k: nat, m: nat, j: nat)
    requires |s.mem| == VSIZE && SectionOk(items, s.p) && s.cp == 0 && k < |items| && m < |items| && j < |items|
    ensures
      var mem, c, at := TwoPass(s, items).mem, AddressOf(items, k, s.p, 0), AddressOf(items, m, s.p, 0);
      && (items[k].Data? ==> c < VSIZE && mem[c] == items[k].w)
      && (items[k].DataRef? && items[m] == Mark(items[k].n) ==> c < VSIZE && mem[c] == at)
      && (items[k].Global? && items[m] == Mark(items[k].n) ==>
            && (var g: int := items[k].g; (g + 1) % 65536 < VSIZE && mem[(g + 1) % 65536] == at)
            && (forall f, p :: items[j] == Code(f, true, false, true, Literal(items[k].g)) ==>
                  var d := AddressOf(items, j, s.p, 0); d < VSIZE && Effective(mem, Decode(mem, d), p) == at))
  {
    var labels, hi := Labels(items, s.p, 0), End(items, s.p, 0);
    SectionStart(items, s.p, s);
    if items[m].Mark? {
      LabelIs(items, s.p, 0, m);
    }
    if items[k].Data? || items[k].DataRef? {
      DataRead(s, items, labels, {}, s.p, hi, k);
    }
    if items[k].Global? {
      GlobalFilled(s, items, labels, {}, s.p, hi, k);
      if items[j].Code? {
        Decodes(s, items, labels, {}, s.p, hi, j);
      }
    }
  }

  // ------------------------------------------------------------------ characters

  /** getbyte */
  function GetByte(mem: seq<Word>, s: nat, i: nat): nat
    requires s + i / 2 < |mem|
  {
    var n := mem[s + i / 2];
    (if i % 2 == 0 then n / 256 else n) % 256
  }

  /** putbyte */
  function PutByte(mem: seq<Word>, s: nat, i: nat, ch: nat): seq<Word>
    requires s + i / 2 < |mem| && ch < 256
  {
    var n := mem[s + i / 2];
    mem[s + i / 2 := if i % 2 == 1 then n / 256 * 256 + ch else n % 256 + ch * 256]
  }

  lemma GetPutByte(mem: seq<Word>, s: nat, i: nat, ch: nat, j: nat)
    requires s + i / 2 < |mem| && s + j / 2 < |mem| && ch < 256
    ensures GetByte(PutByte(mem, s, i, ch), s, j) == if i == j then ch else GetByte(mem, s, j)
  {
    hide GetByte, PutByte;
    var n: int := mem[s + i / 2];
    Halves(n / 256, ch);
    Halves(ch, n % 256);
    Halves(n / 256, n % 256);
    BytePut(mem, s, i, ch);
    ByteGot(mem, s, j);
    ByteGot(PutByte(mem, s, i, ch), s, j);
  }

  lemma BytePut(mem: seq<Word>, s: nat, i: nat, ch: nat)
    requires s + i / 2 < |mem| && ch < 256
    ensures
      var n: int := mem[s + i / 2];
      PutByte(mem, s, i, ch) == mem[s + i / 2 := if i % 2 == 1 then n / 256 * 256 + ch else ch * 256 + n % 256]
  {
  }

  lemma ByteGot(mem: seq<Word>, s: nat, i: nat)
    requires s + i / 2 < |mem|
    ensures GetByte(mem, s, i) == if i % 2 == 0 then mem[s + i / 2] / 256 else mem[s + i / 2] % 256
  {
  }

  lemma Halves(high: nat, low: nat)
    requires low < 256
    ensures (high * 256 + low) / 256 == high && (high * 256 + low) % 256 == low
  {
  }

  predicate BytesOnly(items: seq<Item>) {
    forall i :: 0 <= i < |items| && items[i].Character? ==> items[i].c < 256
  }

  /** The first character of a word keeps its half when a second one joins it. */
  lemma {:induction false} HighKept(s: State, items: seq<Item>, labels: map<nat, nat>, used: set<nat>, lo: nat, hi: nat)
    requires StateOk(s) && LabelsOk(labels) && RestOk(items, s.p, s.cp, used, lo, hi, labels) && BytesOnly(items)
    requires s.cp == 8 && s.mem[s.p - 1] % 256 == 0
    ensures PutAll(s, items, labels).mem[s.p - 1] / 256 == s.mem[s.p - 1] / 256
    decreases |items|
  {
    hide RestOk, Opcode;
    if items != [] {
      RestStep(items, s.p, s.cp, used, lo, hi, labels);
      var t := Put(s, items[0], labels);
      OpenWord(items, s.p, s.cp, used, lo, hi, labels);
      BytesTail(items);
      if items[0].Global? {
        HighKept(t, items[1..], labels, Used(items[0], used), lo, hi);
      } else {
        CodeKept(t, items[1..], labels, Used(items[0], used), lo, hi, s.p - 1);
        FirstPut(s, items[0], labels);
      }
    }
  }

  lemma BytesTail(items: seq<Item>)
    requires BytesOnly(items) && items != []
    ensures BytesOnly(items[1..]) && (items[0].Character? ==> items[0].c < 256)
  {
    assert forall i :: 0 <= i < |items[1..]| ==> items[1..][i] == items[i + 1];
  }

  lemma OpenWord(items: seq<Item>, p: nat, cp: nat, used: set<nat>, lo: nat, hi: nat, labels: map<nat, nat>)
    requires RestOk(items, p, cp, used, lo, hi, labels)
    ensures lo <= p <= hi <= VSIZE && (cp != 0 ==> lo < p)
  {
  }

  lemma FirstPut(s: State, item: Item, labels: map<nat, nat>)
    requires StateOk(s) && LabelsOk(labels) && ItemOk(item, labels) && s.p + Size(item, s.cp) <= VSIZE
    requires s.cp == 8 && s.mem[s.p - 1] % 256 == 0 && !item.Global? && (item.Character? ==> item.c < 256)
    ensures var t := Put(s, item, labels); t.mem[s.p - 1] / 256 == s.mem[s.p - 1] / 256 && t.cp == 0
  {
    hide Opcode;
  }

  /** A word of one or two characters holds them for getbyte, whatever follows. */
  lemma WordRead(s: State, items: seq<Item>, labels: map<nat, nat>, used: set<nat>, lo: nat, hi: nat, cs: seq<Word>)
    requires StateOk(s) && LabelsOk(labels) && RestOk(items, s.p, s.cp, used, lo, hi, labels) && BytesOnly(items)
    requires s.cp == 0 && 1 <= |cs| <= 2 && |cs| <= |items|
    requires forall i :: 0 <= i < |cs| ==> items[i].Character? && items[i].c == cs[i]
    ensures forall i :: 0 <= i < |cs| ==> s.p < VSIZE && GetByte(PutAll(s, items, labels).mem, s.p, i) == cs[i]
  {
    hide RestOk, PutAll;
    BytesTail(items);
    FirstRead(s, items, labels, used, lo, hi);
    if |cs| == 2 {
      assert items[1] == items[1..][0];
      BytesTail(items[1..]);
      SecondRead(s, items, labels, used, lo, hi);
    }
  }

  lemma FirstRead(s: State, items: seq<Item>, labels: map<nat, nat>, used: set<nat>, lo: nat, hi: nat)
    requires StateOk(s) && LabelsOk(labels) && RestOk(items, s.p, s.cp, used, lo, hi, labels) && BytesOnly(items)
    requires s.cp == 0 && items != [] && items[0].Character?
    ensures s.p < VSIZE && PutAll(s, items, labels).mem[s.p] / 256 == items[0].c
  {
    hide RestOk, Put, PutAll, SetOnce, Fresh, Labels;
    RestStep(items, s.p, s.cp, used, lo, hi, labels);
    BytesTail(items);
    PutCharacter(s, items[0].c, labels);
    PutAllStep(s, items, labels);
    HighKept(Put(s, items[0], labels), items[1..], labels, used, lo, hi);
  }

  lemma SecondRead(s: State, items: seq<Item>, labels: map<nat, nat>, used: set<nat>, lo: nat, hi: nat)
    requires StateOk(s) && LabelsOk(labels) && RestOk(items, s.p, s.cp, used, lo, hi, labels) && BytesOnly(items)
    requires s.cp == 0 && |items| >= 2 && items[0].Character? && items[1].Character?
    ensures s.p < VSIZE && PutAll(s, items, labels).mem[s.p] == items[0].c * 256 + items[1].c
  {
    hide RestOk, Put, PutAll, SetOnce, Fresh, Labels;
    RestStep(items, s.p, s.cp, used, lo, hi, labels);
    OpenWord(items, s.p, s.cp, used, lo, hi, labels);
    BytesTail(items);
    PutCharacter(s, items[0].c, labels);
    PutAllStep(s, items, labels);
    var t, rest := Put(s, items[0], labels), items[1..];
    assert items[1] == rest[0];
    RestStep(rest, t.p, t.cp, used, lo, hi, labels);
    BytesTail(rest);
    PutCharacter(t, rest[0].c, labels);
    PutAllStep(t, rest, labels);
    CodeKept(Put(t, rest[0], labels), rest[1..], labels, used, lo, hi, s.p);
  }

  lemma PutCharacter(s: State, c: Word, labels: map<nat, nat>)
    requires StateOk(s) && LabelsOk(labels) && s.p + Size(Character(c), s.cp) <= VSIZE && c < 256
    ensures
      var t := Put(s, Character(c), labels);
      if s.cp == 0 then t.p == s.p + 1 && t.cp == 8 && t.mem[s.p] == c * 256
      else t.p == s.p && t.cp == 0 && (s.mem[s.p - 1] % 256 == 0 ==> t.mem[s.p - 1] == s.mem[s.p - 1] + c)
  {
  }

  lemma PutAllStep(s: State, items: seq<Item>, labels: map<nat, nat>)
    requires StateOk(s) && ItemsOk(items, labels) && LabelsOk(labels) && End(items, s.p, s.cp) <= VSIZE && items != []
    ensures ItemOk(items[0], labels) && s.p + Size(items[0], s.cp) <= VSIZE && ItemsOk(items[1..], labels)
    ensures End(items[1..], s.p + Size(items[0], s.cp), NextCp(items[0], s.cp)) <= VSIZE
    ensures PutAll(s, items, labels) == PutAll(Put(s, items[0], labels), items[1..], labels)
  {
    assert forall i :: 0 <= i < |items[1..]| ==> items[1..][i] == items[i + 1];
  }

  /** getbyte reads back a string of characters, two to a word from the word they start in. */
  lemma {:induction false} CharactersRead(s: State, items: seq<Item>, labels: map<nat, nat>, used: set<nat>, lo: nat, hi: nat,
                                          cs: seq<Word>, i: nat)
    requires StateOk(s) && LabelsOk(labels) && RestOk(items, s.p, s.cp, used, lo, hi, labels) && BytesOnly(items)
    requires s.cp == 0 && i < |cs| <= |items|
    requires forall i :: 0 <= i < |cs| ==> items[i].Character? && items[i].c == cs[i]
    ensures s.p + i / 2 < VSIZE && GetByte(PutAll(s, items, labels).mem, s.p, i) == cs[i]
    decreases |cs|
  {
    hide RestOk, GetByte;
    if i < 2 {
      WordRead(s, items, labels, used, lo, hi, if |cs| == 1 then cs else cs[..2]);
    } else {
      RestStep(items, s.p, s.cp, used, lo, hi, labels);
      BytesTail(items);
      var t, rest := Put(s, items[0], labels), items[1..];
      assert items[1] == rest[0];
      RestStep(rest, t.p, t.cp, used, lo, hi, labels);
      BytesTail(rest);
      var u := Put(t, rest[0], labels);
      assert forall j :: 0 <= j < |cs| - 2 ==> rest[1..][j] == items[j + 2];
      CharactersRead(u, rest[1..], labels, used, lo, hi, cs[2..], i - 2);
      GetByteShift(PutAll(u, rest[1..], labels).mem, s.p, i);
    }
  }

  lemma GetByteShift(mem: seq<Word>, s: nat, i: nat)
    requires i >= 2 && s + i / 2 < |mem|
    ensures GetByte(mem, s + 1, i - 2) == GetByte(mem, s, i)
  {
  }

  lemma {:induction false} StringAt(s: State, items: seq<Item>, labels: map<nat, nat>, used: set<nat>, lo: nat, hi: nat,
                                    k: nat, cs: seq<Word>, i: nat)
    requires StateOk(s) && LabelsOk(labels) && RestOk(items, s.p, s.cp, used, lo, hi, labels) && BytesOnly(items)
    requires IsString(items, k, s.cp, cs) && i < |cs|
    ensures var c := AddressOf(items, k, s.p, s.cp); c + i / 2 < VSIZE && GetByte(PutAll(s, items, labels).mem, c, i) == cs[i]
    decreases k
  {
    hide RestOk, GetByte;
    if k == 0 {
      assert forall j :: 0 <= j < |cs| ==> items[0..|cs|][j] == items[j];
      CharactersRead(s, items, labels, used, lo, hi, cs, i);
    } else {
      RestStep(items, s.p, s.cp, used, lo, hi, labels);
      BytesTail(items);
      assert items[1..][k - 1..k - 1 + |cs|] == items[k..k + |cs|];
      StringAt(Put(s, items[0], labels), items[1..], labels, Used(items[0], used), lo, hi, k - 1, cs, i);
    }
  }

  /** From item k on come the characters cs, the first of them starting a word. */
  predicate IsString(items: seq<Item>, k: nat, cp: nat, cs: seq<Word>) {
    && k + |cs| <= |items| && CpAt(items, k, cp) == 0
    && var run := items[k..k + |cs|]; forall j :: 0 <= j < |cs| ==> run[j] == Character(cs[j])
  }

  /** A word starts at the first item, and behind any item but a character and a global. */
  lemma {:induction false} WordStarts(items: seq<Item>, k: nat, cp: nat)
    requires k <= |items| && if k == 0 then cp == 0 else !items[k - 1].Character? && !items[k - 1].Global?
    ensures CpAt(items, k, cp) == 0
    decreases k
  {
    if k > 1 {
      assert items[1..][k - 2] == items[k - 1];
      WordStarts(items[1..], k - 1, NextCp(items[0], cp));
    }
  }

  /** In an assembled section every instruction decodes to what the source said, and every string reads back. */
  lemma SectionReadsBack(s: State, items: seq<Item>)
    requires |s.mem| == VSIZE && SectionOk(items, s.p) && s.cp == 0
    ensures StateOk(s) && LabelsOk(Labels(items, s.p, 0))
    ensures BytesOnly(items) ==> forall k: nat, cs, i :: IsString(items, k, 0, cs) && 0 <= i < |cs| ==>
      StringBack(TwoPass(s, items).mem, AddressOf(items, k, s.p, 0), cs, i)
    ensures forall k :: 0 <= k < |items| && items[k].Code? ==> ReadsBack(TwoPass(s, items).mem, items, k, s.p)
  {
    SectionStart(items, s.p, s);
    forall k | 0 <= k < |items| && items[k].Code? ensures ReadsBack(TwoPass(s, items).mem, items, k, s.p) {
      Decodes(s, items, Labels(items, s.p, 0), {}, s.p, End(items, s.p, 0), k);
    }
    if BytesOnly(items) {
      forall k: nat, cs, i: nat | IsString(items, k, 0, cs) && i < |cs|
        ensures StringBack(TwoPass(s, items).mem, AddressOf(items, k, s.p, 0), cs, i)
      {
        StringAt(s, items, Labels(items, s.p, 0), {}, s.p, End(items, s.p, 0), k, cs, i);
      }
    }
  }

  predicate StringBack(mem: seq<Word>, c: nat, cs: seq<Word>, i: nat)
    requires i < |cs|
  {
    c + i / 2 < |mem| && GetByte(mem, c, i) == cs[i]
  }

  ghost predicate ReadsBack(mem: seq<Word>, items: seq<Item>, k: nat, p: nat)
    requires |mem| == VSIZE && k < |items| && items[k].Code? && LabelsOk(Labels(items, p, 0)) && ItemsOk(items, Labels(items, p, 0))
  {
    var c := AddressOf(items, k, p, 0);
    c < VSIZE && Decode(mem, c) == Meant(items[k], Labels(items, p, 0), c)
  }
}
