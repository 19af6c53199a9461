/** Running the code of an expression: the primary register gets its value, the variables get its assignments,
    the stack pointer comes back, and no other byte above the stack or below its limit changes, whatever the
    library leaves in de and on the stack below SP. */
module SmallCRuns {
  import opened Expressions
  import opened Machine8080
  import opened SmallC

  /** Where a function's variables are: base is the address its stkp counts from, low the lowest address its
      pushes and calls may reach. */
  datatype Frame = Frame(syms: Symbols, base: int, low: nat) {

    function Slot(i: nat): int
      requires i < |syms|
    {
      match syms[i]
      case Auto(offset) => base + offset
      case Static(a) => a
    }

    /** The variables are words apart from each other and from the stack area low..sp-1. */
    ghost predicate Layout(sp: int) {
      && low <= sp < 65536
      && (forall i :: 0 <= i < |syms| ==> 0 <= Slot(i) < 65535 && (Slot(i) + 2 <= low || sp <= Slot(i)))
      && (forall i, j :: 0 <= i < j < |syms| ==> Slot(i) + 2 <= Slot(j) || Slot(j) + 2 <= Slot(i))
    }

    ghost predicate Shows(mem: Memory, env: seq<Word>) {
      |env| == |syms| && forall i :: 0 <= i < |syms| ==> 0 <= Slot(i) < 65535 && Load(mem, Slot(i)) == env[i]
    }

    ghost predicate InSlot(a: int) {
      exists i :: 0 <= i < |syms| && Slot(i) <= a <= Slot(i) + 1
    }

    /** Only variables and the stack area low..sp-1 may differ. */
    ghost predicate Kept(sp: int, mem: Memory, mem': Memory) {
      forall a :: 0 <= a < 65536 && !(low <= a < sp) && !InSlot(a) ==> mem'[a] == mem[a]
    }

    /** m' is m after code that computed x and left the variables as env. */
    ghost predicate Computed(m: Machine, m': Machine, x: Word, env: seq<Word>) {
      m'.hl == x && m'.sp == m.sp && Shows(m'.mem, env) && Kept(m.sp, m.mem, m'.mem)
    }
  }

  /** Two bytes make up the word. */
  lemma StoreLoad(mem: Memory, a: Word, x: Word)
    requires a < 65535
    ensures Load(Store(mem, a, x), a) == x
    ensures forall b: Word :: b < 65535 && (b + 2 <= a || a + 2 <= b) ==> Load(Store(mem, a, x), b) == Load(mem, b)
    ensures forall b :: 0 <= b < 65536 && b != a && b != a + 1 ==> Store(mem, a, x)[b] == mem[b]
  {
  }

  /** An address written offset - stkp from SP is offset from the frame. */
  lemma OffsetAddress(offset: int, stkp: int, sp: Word)
    requires 0 <= sp - stkp + offset < 65536
    ensures ((offset - stkp) % 65536 + sp) % 65536 == sp - stkp + offset
  {
    var q := (offset - stkp) / 65536;
    assert offset - stkp == 65536 * q + (offset - stkp) % 65536;
  }

  lemma Pushed(f: Frame, sp: Word, mem: Memory, x: Word, env: seq<Word>)
    requires f.Layout(sp) && f.Shows(mem, env) && f.low + 2 <= sp
    ensures
      var mem1 := Store(mem, sp - 2, x);
      f.Layout(sp - 2) && f.Shows(mem1, env) && Load(mem1, sp - 2) == x && f.Kept(sp, mem, mem1)
  {
    hide Load, Store, Frame.Slot, Frame.InSlot;
    StoreLoad(mem, sp - 2, x);
  }

  lemma PushRuns(f: Frame, m: Machine, env: seq<Word>, junk: Junk)
    requires f.Layout(m.sp) && f.Shows(m.mem, env) && f.low + 2 <= m.sp
    ensures
      var m1 := Run([PushH], m, junk);
      && m1 == m.(sp := m.sp - 2, mem := m1.mem)
      && f.Layout(m1.sp) && f.Shows(m1.mem, env) && Load(m1.mem, m1.sp) == m.hl
      && f.Kept(m.sp, m.mem, m1.mem)
  {
    hide Run, Load, Store, Frame.Layout, Frame.Shows, Frame.Kept;
    SpRoom(f, m.sp);
    Run1(PushH, m, junk);
    Pushed(f, m.sp, m.mem, m.hl, env);
  }

  /** A pushed word survives whatever computes below it. */
  lemma PushedKept(f: Frame, m: Machine, m': Machine)
    requires m.sp + 2 < 65536 && f.Layout(m.sp) && f.Layout(m.sp + 2) && f.Kept(m.sp, m.mem, m'.mem)
    ensures Load(m'.mem, m.sp) == Load(m.mem, m.sp)
  {
    assert !f.InSlot(m.sp) && !f.InSlot(m.sp + 1);
  }

  lemma KeptTrans(f: Frame, sp: int, sp': int, a: Memory, b: Memory, c: Memory)
    requires sp' <= sp && f.Kept(sp, a, b) && f.Kept(sp', b, c)
    ensures f.Kept(sp, a, c)
  {
  }

  /** Code in one piece after code in another. */
  lemma Runs(a: seq<Instr>, b: seq<Instr>, lo: nat, hi: nat, m: Machine, junk: Junk)
    requires Tidy(a, lo, hi)
    ensures Run(a + b, m, junk) == Run(b, Run(a, m, junk), junk)
  {
    RunAppend(a, b, m, junk);
  }

  lemma RunsPlain(a: seq<Instr>, b: seq<Instr>, m: Machine, junk: Junk)
    requires forall i :: 0 <= i < |a| ==> !a[i].Label? && !a[i].Jz? && !a[i].Jnz?
    ensures Run(a + b, m, junk) == Run(b, Run(a, m, junk), junk)
  {
    PlainTidy(a, 0);
    RunAppend(a, b, m, junk);
  }

  lemma Run1(i: Instr, m: Machine, junk: Junk)
    requires !i.Jz? && !i.Jnz?
    ensures Run([i], m, junk) == Do(i, m, junk)
  {
    assert [i][1..] == [];
  }

  lemma Run2(i: Instr, j: Instr, m: Machine, junk: Junk)
    requires !i.Jz? && !i.Jnz? && !j.Jz? && !j.Jnz?
    ensures Run([i, j], m, junk) == Do(j, Do(i, m, junk), junk)
  {
    assert [i, j][1..] == [j];
    Run1(j, Do(i, m, junk), junk);
  }

  /** A call uses the stack below SP and nothing else. */
  lemma CallRuns(f: Frame, h: Helper, m: Machine, env: seq<Word>, junk: Junk)
    requires f.Layout(m.sp) && f.Shows(m.mem, env) && f.low + CALL_ROOM <= m.sp
    ensures var s := Scribbled(m.mem, m.sp, Pushes(h), m.calls, junk); f.Shows(s, env) && f.Kept(m.sp, m.mem, s)
  {
    hide Load, Frame.Slot, Frame.InSlot;
    var s := Scribbled(m.mem, m.sp, Pushes(h), m.calls, junk);
    forall a | 0 <= a < 65536 && !(f.low <= a < m.sp) ensures s[a] == m.mem[a] {
      assert (m.sp - 1 - a) % 65536 == if a < m.sp then m.sp - 1 - a else m.sp - 1 - a + 65536;
    }
    forall i | 0 <= i < |f.syms| ensures Load(s, f.Slot(i)) == env[i] {
      SameLoad(m.mem, s, f.Slot(i));
    }
  }

  lemma SameLoad(mem: Memory, mem': Memory, a: Word)
    requires a < 65535 && mem'[a] == mem[a] && mem'[a + 1] == mem[a + 1]
    ensures Load(mem', a) == Load(mem, a)
  {
  }

  /** The operator takes its left operand from the stack and its right one from the primary register. */
  lemma OpRuns(f: Frame, op: Op, m: Machine, env: seq<Word>, junk: Junk)
    requires !Short(op) && f.Layout(m.sp + 2) && f.Shows(m.mem, env) && f.low + CALL_ROOM <= m.sp + 2
    ensures
      var m1 := Run(OpCode(op), m, junk);
      && m1.hl == Arith(op, Load(m.mem, m.sp), m.hl) && m1.sp == m.sp + 2
      && f.Shows(m1.mem, env) && f.Kept(m.sp + 2, m.mem, m1.mem)
  {
    hide Arith, Load, Scribbled, Frame.Layout, Frame.Shows, Frame.Kept;
    SpRoom(f, m.sp + 2);
    KeptRefl(f, m.sp + 2, m.mem);
    var p := Do(PopD, m, junk);
    assert p.sp == m.sp + 2 && p.mem == m.mem && p.de == Load(m.mem, m.sp) && p.hl == m.hl;
    match op
    case Add =>
      Run2(PopD, DadD, m, junk);
      AddIs(Load(m.mem, m.sp), m.hl);
    case Div =>
      Run2(PopD, Call(CcDiv), m, junk);
      CallRuns(f, CcDiv, p, env, junk);
    case Mod =>
      assert OpCode(op)[1..] == [Call(CcDiv), Xchg];
      Run2(Call(CcDiv), Xchg, p, junk);
      CallRuns(f, CcDiv, p, env, junk);
    case _ =>
      Run2(PopD, Call(CcArith(op)), m, junk);
      CallRuns(f, CcArith(op), p, env, junk);
  }

  lemma KeptRefl(f: Frame, sp: int, mem: Memory)
    ensures f.Kept(sp, mem, mem)
  {
  }

  lemma AddIs(x: Word, y: Word)
    ensures Arith(Add, x, y) == (y + x) % 65536
  {
  }

  /** push, compute the right operand, apply the operator. */
  lemma BinaryRuns(f: Frame, op: Op, value: seq<Instr>, lo: nat, hi: nat, m: Machine, env: seq<Word>, y: Word,
                   env': seq<Word>, junk: Junk)
    requires !Short(op) && Tidy(value, lo, hi) && f.Layout(m.sp) && f.Shows(m.mem, env) && f.low + CALL_ROOM <= m.sp
    requires var m1 := Run([PushH], m, junk); f.Computed(m1, Run(value, m1, junk), y, env')
    ensures f.Computed(m, Run(BinaryCode(op, value), m, junk), Arith(op, m.hl, y), env')
  {
    hide Run, Tidy, Arith, Load, OpCode, Frame.Layout, Frame.Shows, Frame.Kept;
    var m1 := Run([PushH], m, junk);
    var m2 := Run(value, m1, junk);
    PushRuns(f, m, env, junk);
    assert [PushH] + value + OpCode(op) == [PushH] + (value + OpCode(op));
    RunsPlain([PushH], value + OpCode(op), m, junk);
    Runs(value, OpCode(op), lo, hi, m1, junk);
    SpRoom(f, m.sp);
    PushedKept(f, m1, m2);
    OpRuns(f, op, m2, env', junk);
    KeptTrans(f, m.sp, m1.sp, m.mem, m1.mem, m2.mem);
    KeptTrans(f, m.sp, m.sp, m.mem, m2.mem, Run(OpCode(op), m2, junk).mem);
  }

  lemma SpRoom(f: Frame, sp: int)
    requires f.Layout(sp)
    ensures sp < 65536
  {
  }

  /** Fetching a variable. */
  lemma FetchRuns(f: Frame, i: nat, m: Machine, env: seq<Word>, junk: Junk)
    requires f.Layout(m.sp) && f.Shows(m.mem, env) && i < |f.syms| && f.low + CALL_ROOM <= m.sp
    requires f.syms[i].Auto? ==> m.hl == f.Slot(i)
    ensures f.Computed(m, Run(Fetch(f.syms[i]), m, junk), env[i], env)
  {
    hide Scribbled;
    Run1(Fetch(f.syms[i])[0], m, junk);
    assert Fetch(f.syms[i]) == [Fetch(f.syms[i])[0]];
    CallRuns(f, CcGint, m, env, junk);
  }

  lemma AddressRuns(f: Frame, i: nat, stkp: int, m: Machine, junk: Junk)
    requires f.Layout(m.sp) && i < |f.syms| && f.base == m.sp - stkp
    ensures
      var m1 := Run(Address(f.syms[i], stkp), m, junk);
      m1 == m.(hl := m1.hl) && (f.syms[i].Auto? ==> m1.hl == f.Slot(i))
  {
    match f.syms[i]
    case Static(_) =>
    case Auto(offset) =>
      Run2(LxiH((offset - stkp) % 65536), DadSp, m, junk);
      assert f.Slot(i) == f.base + offset;
      OffsetAddress(offset, stkp, m.sp);
  }

  lemma VarRuns(f: Frame, i: nat, stkp: int, m: Machine, env: seq<Word>, junk: Junk)
    requires f.Layout(m.sp) && f.Shows(m.mem, env) && i < |f.syms| && f.base == m.sp - stkp && f.low + CALL_ROOM <= m.sp
    ensures f.Computed(m, Run(VarCode(f.syms[i], stkp), m, junk), env[i], env)
  {
    hide Run, Frame.Layout, Frame.Shows, Frame.Kept, Frame.Slot;
    AddressRuns(f, i, stkp, m, junk);
    RunsPlain(Address(f.syms[i], stkp), Fetch(f.syms[i]), m, junk);
    FetchRuns(f, i, Run(Address(f.syms[i], stkp), m, junk), env, junk);
  }

  /** Before an assignment the address of an auto is pushed. */
  lemma SaveRuns(f: Frame, i: nat, stkp: int, m: Machine, env: seq<Word>, junk: Junk)
    requires f.Layout(m.sp) && f.Shows(m.mem, env) && i < |f.syms| && f.base == m.sp - stkp
    requires f.low + Saved(f.syms[i]) <= m.sp
    ensures
      var m1 := Run(Address(f.syms[i], stkp) + Save(f.syms[i]), m, junk);
      && m1.sp == m.sp - Saved(f.syms[i])
      && f.Layout(m1.sp) && f.Shows(m1.mem, env) && f.Kept(m.sp, m.mem, m1.mem)
      && (f.syms[i].Auto? ==> m1.hl == f.Slot(i) && Load(m1.mem, m1.sp) == f.Slot(i))
  {
    hide Frame.Layout, Frame.Shows, Frame.Slot;
    AddressRuns(f, i, stkp, m, junk);
    RunsPlain(Address(f.syms[i], stkp), Save(f.syms[i]), m, junk);
    var m0 := Run(Address(f.syms[i], stkp), m, junk);
    if f.syms[i].Auto? {
      PushRuns(f, m0, env, junk);
    }
  }

  /** Storing to a variable makes exactly that change. */
  lemma StoreRuns(f: Frame, i: nat, m: Machine, m1: Machine, m2: Machine, x: Word, env: seq<Word>, junk: Junk)
    requires i < |f.syms| && f.Layout(m.sp) && f.Layout(m1.sp) && m1.sp == m.sp - Saved(f.syms[i])
    requires f.low + CALL_ROOM <= m.sp
    requires f.Kept(m.sp, m.mem, m1.mem) && f.Computed(m1, m2, x, env)
    requires f.syms[i].Auto? ==> Load(m1.mem, m1.sp) == f.Slot(i)
    ensures f.Computed(m, Run(StoreTo(f.syms[i]), m2, junk), x, env[i := x])
  {
    hide Run, Load, Store, Scribbled, Frame.Layout, Frame.Shows, Frame.Kept;
    var s := f.syms[i];
    KeptTrans(f, m.sp, m1.sp, m.mem, m1.mem, m2.mem);
    SpRoom(f, m.sp);
    InFrame(f, i, m.sp);
    if s.Auto? {
      PushedKept(f, m1, m2);
      Run2(PopD, Call(CcPint), m2, junk);
      var m3 := Do(PopD, m2, junk);
      CallRuns(f, CcPint, m3, env, junk);
      var called := Scribbled(m3.mem, m3.sp, Pushes(CcPint), m3.calls, junk);
      KeptTrans(f, m.sp, m.sp, m.mem, m2.mem, called);
      Stored(f, i, m.sp, m.mem, called, x, env);
    } else {
      Run1(Shld(s.address), m2, junk);
      Stored(f, i, m.sp, m.mem, m2.mem, x, env);
    }
  }

  lemma InFrame(f: Frame, i: nat, sp: int)
    requires f.Layout(sp) && i < |f.syms|
    ensures 0 <= f.Slot(i) < 65535
  {
  }

  lemma Stored(f: Frame, i: nat, sp: int, mem: Memory, mem1: Memory, x: Word, env: seq<Word>)
    requires i < |f.syms| && f.Layout(sp) && f.Shows(mem1, env) && f.Kept(sp, mem, mem1)
    ensures 0 <= f.Slot(i) < 65535
    ensures f.Shows(Store(mem1, f.Slot(i), x), env[i := x]) && f.Kept(sp, mem, Store(mem1, f.Slot(i), x))
  {
    hide Load, Store, Frame.Slot;
    StoreLoad(mem1, f.Slot(i), x);
    assert f.InSlot(f.Slot(i)) && f.InSlot(f.Slot(i) + 1);
  }

  // ------------------------------------------------------------------ whole expressions

  lemma AssignRuns(f: Frame, i: nat, stkp: int, value: seq<Instr>, lo: nat, hi: nat, m: Machine, x: Word,
                   env: seq<Word>, env': seq<Word>, junk: Junk)
    requires f.Layout(m.sp) && f.Shows(m.mem, env) && i < |f.syms| && f.base == m.sp - stkp
    requires f.low + Saved(f.syms[i]) <= m.sp && f.low + CALL_ROOM <= m.sp && Tidy(value, lo, hi)
    requires var m1 := Run(Address(f.syms[i], stkp) + Save(f.syms[i]), m, junk); f.Computed(m1, Run(value, m1, junk), x, env')
    ensures f.Computed(m, Run(AssignCode(f.syms[i], stkp, value), m, junk), x, env'[i := x])
  {
    hide Run, Tidy, Load, Frame.Layout, Frame.Shows, Frame.Kept, Frame.Slot, Frame.Computed;
    var s := f.syms[i];
    var before := Address(s, stkp) + Save(s);
    SaveRuns(f, i, stkp, m, env, junk);
    assert before + value + StoreTo(s) == before + (value + StoreTo(s));
    RunsPlain(before, value + StoreTo(s), m, junk);
    var m1 := Run(before, m, junk);
    Runs(value, StoreTo(s), lo, hi, m1, junk);
    StoreRuns(f, i, m, m1, Run(value, m1, junk), x, env', junk);
  }

  /** The value of an op= is a fetch and a binary operator, stored like any other. */
  lemma OpAssignIs(s: Symbol, stkp: int, op: Op, value: seq<Instr>)
    ensures OpAssignCode(s, stkp, op, value) == AssignCode(s, stkp, Fetch(s) + BinaryCode(op, value))
  {
    hide Address, Save, Fetch, OpCode, StoreTo;
    assert Address(s, stkp) + Save(s) + Fetch(s) + [PushH] + value + (OpCode(op) + StoreTo(s))
        == Address(s, stkp) + Save(s) + (Fetch(s) + ([PushH] + value + OpCode(op))) + StoreTo(s);
  }

  /** After the address is saved: fetch the variable and combine it with the right operand. */
  lemma FetchBinaryRuns(f: Frame, i: nat, op: Op, value: seq<Instr>, lo: nat, hi: nat, m: Machine, env: seq<Word>,
                        y: Word, env': seq<Word>, junk: Junk)
    requires !Short(op) && lo <= hi && Tidy(value, lo, hi) && i < |f.syms| && i < |env|
    requires f.Layout(m.sp) && f.Shows(m.mem, env) && f.low + CALL_ROOM <= m.sp && (f.syms[i].Auto? ==> m.hl == f.Slot(i))
    requires
      var m1 := Run([PushH], Run(Fetch(f.syms[i]), m, junk), junk);
      f.Computed(m1, Run(value, m1, junk), y, env')
    ensures f.Computed(m, Run(Fetch(f.syms[i]) + BinaryCode(op, value), m, junk), Arith(op, env[i], y), env')
    ensures Tidy(Fetch(f.syms[i]) + BinaryCode(op, value), lo, hi)
  {
    hide Run, Tidy, Load, Arith, BinaryCode, Frame.Layout, Frame.Shows, Frame.Kept, Frame.Slot;
    FetchRuns(f, i, m, env, junk);
    var m1 := Run(Fetch(f.syms[i]), m, junk);
    RunsPlain(Fetch(f.syms[i]), BinaryCode(op, value), m, junk);
    BinaryRuns(f, op, value, lo, hi, m1, env, y, env', junk);
    KeptTrans(f, m.sp, m.sp, m.mem, m1.mem, Run(BinaryCode(op, value), m1, junk).mem);
    AssignTidy(f.syms[i], 0, op, value, lo, hi);
    PlainTidy(Fetch(f.syms[i]), lo);
    TidyAppend(Fetch(f.syms[i]), BinaryCode(op, value), lo, lo, hi);
  }

  /** mov a,h; ora l: the jump is taken exactly when the value settles the operator. */
  lemma TestRuns(op: Op, lab: nat, value: seq<Instr>, hi: nat, m: Machine, junk: Junk)
    requires Short(op) && Tidy(value, lab + 1, hi)
    ensures
      var end := [Label(lab), Call(CcBool)];
      var m1 := m.(a := OrByte(m.hl / 256, m.hl % 256), z := m.hl == 0);
      Run(ShortCode(op, lab, value), m, junk) ==
        if op.LogOr? == (m.hl != 0) then Run([Call(CcBool)], m1, junk) else Run(end, Run(value, m1, junk), junk)
  {
    hide OrByte, CallHelper;
    var end := [Label(lab), Call(CcBool)];
    var code := ShortCode(op, lab, value);
    var ma := Do(MovAH, m, junk);
    var m1 := m.(a := OrByte(m.hl / 256, m.hl % 256), z := m.hl == 0);
    assert code[0] == MovAH && code[1..][0] == OraL;
    assert code[1..][1..] == [TestJump(lab, op.LogOr?)[2]] + value + end;
    assert Run(code, m, junk) == Run(code[1..][1..], m1, junk);
    var tail := code[1..][1..];
    assert tail[1..] == value + end;
    if op.LogOr? == (m.hl != 0) {
      assert Label(lab) !in value;
      AfterAppend(value, end, lab);
      assert After(end, lab) == [Call(CcBool)];
    } else {
      Runs(value, end, lab + 1, hi, m1, junk);
    }
  }

  lemma BoolRuns(f: Frame, lab: nat, m: Machine, env: seq<Word>, junk: Junk)
    requires f.Layout(m.sp) && f.Shows(m.mem, env) && f.low + CALL_ROOM <= m.sp
    ensures
      var m1 := Run([Call(CcBool)], m, junk);
      f.Computed(m, m1, Bool(m.hl != 0), env) && Run([Label(lab), Call(CcBool)], m, junk) == m1
  {
    hide Scribbled, Frame.Layout, Frame.Shows, Frame.Kept;
    Run1(Call(CcBool), m, junk);
    Run2(Label(lab), Call(CcBool), m, junk);
    CallRuns(f, CcBool, m, env, junk);
  }

  /** && and ||: the right operand runs only when it is needed. */
  lemma ShortRuns(f: Frame, op: Op, lab: nat, value: seq<Instr>, hi: nat, m: Machine, env: seq<Word>, y: Word,
                  env': seq<Word>, junk: Junk)
    requires Short(op) && Tidy(value, lab + 1, hi) && f.Layout(m.sp) && f.Shows(m.mem, env) && f.low + CALL_ROOM <= m.sp
    requires
      var m1 := m.(a := OrByte(m.hl / 256, m.hl % 256), z := m.hl == 0);
      f.Computed(m1, Run(value, m1, junk), y, env')
    ensures
      var skip := op.LogOr? == (m.hl != 0);
      f.Computed(m, Run(ShortCode(op, lab, value), m, junk),
                 if skip then Bool(op.LogOr?) else Arith(op, m.hl, y), if skip then env else env')
  {
    hide Run, Tidy, ShortCode, Frame.Layout, Frame.Shows, Frame.Kept, OrByte;
    TestRuns(op, lab, value, hi, m, junk);
    var m1 := m.(a := OrByte(m.hl / 256, m.hl % 256), z := m.hl == 0);
    var m2 := Run(value, m1, junk);
    if op.LogOr? == (m.hl != 0) {
      BoolRuns(f, lab, m1, env, junk);
    } else {
      BoolRuns(f, lab, m2, env', junk);
      KeptTrans(f, m.sp, m.sp, m.mem, m2.mem, Run([Call(CcBool)], m2, junk).mem);
    }
  }

  /** The compiler is correct: run where stkp tracks SP, with room below for its pushes and calls, the code of e puts the
      value of e in the primary register, makes e's assignments, restores SP and changes nothing else. */
  lemma {:induction false} ValueRuns(f: Frame, e: Expr, stkp: int, lab: nat, m: Machine, env: seq<Word>, junk: Junk)
    requires LvaluesOk(e) && Declared(e, |f.syms|)
    requires f.Layout(m.sp) && f.Shows(m.mem, env) && f.base == m.sp - stkp && f.low + Depth(e) + CALL_ROOM <= m.sp
    ensures |env| == |f.syms|
    ensures f.Computed(m, Run(Value(f.syms, e, stkp, lab), m, junk), Eval(e, env).0, Eval(e, env).1)
    decreases e, 0
  {
    hide Run, Tidy, Load, VarCode, AssignCode, OpAssignCode, Frame.Layout, Frame.Shows, Frame.Kept, Frame.Slot,
         Frame.Computed, Arith, UnaryValue;
    SameLength(f, m.mem, env);
    match e
    case Num(n) =>
      NumRuns(f, n, m, env, junk);
    case Var(v) =>
      VarRuns(f, v, stkp, m, env, junk);
    case Paren(x) =>
      ValueRuns(f, x, stkp, lab, m, env, junk);
    case Un(u, x) =>
      ValueRuns(f, x, stkp, lab, m, env, junk);
      UnRuns(f, u, Value(f.syms, x, stkp, lab), lab, lab + Labels(x), m, Eval(x, env).0, Eval(x, env).1, junk) by {
        ValueTidy(f.syms, x, stkp, lab);
      }
    case Chain(first, rest) =>
      ValueRuns(f, first, stkp, lab, m, env, junk);
      var value := Value(f.syms, first, stkp, lab);
      ValueTidy(f.syms, first, stkp, lab);
      Runs(value, RestValue(f.syms, rest, stkp, lab + Labels(first)), lab, lab + Labels(first), m, junk);
      var m1, r := Run(value, m, junk), Eval(first, env);
      ComputedFacts(f, m, m1, r.0, r.1);
      RestRuns(f, rest, stkp, lab + Labels(first), m1, r.1, junk);
      ComputedTrans(f, m, m1, r.0, r.1, Run(RestValue(f.syms, rest, stkp, lab + Labels(first)), m1, junk),
                    EvalRest(r.0, rest, r.1).0, EvalRest(r.0, rest, r.1).1);
    case Assign(lhs, rhs) =>
      TargetDeclared(lhs, |f.syms|);
      var i := Target(lhs);
      var s := f.syms[i];
      SaveRuns(f, i, stkp, m, env, junk);
      var m1 := Run(Address(s, stkp) + Save(s), m, junk);
      ValueRuns(f, rhs, stkp - Saved(s), lab, m1, env, junk);
      ValueTidy(f.syms, rhs, stkp - Saved(s), lab);
      AssignRuns(f, i, stkp, Value(f.syms, rhs, stkp - Saved(s), lab), lab, lab + Labels(rhs), m,
                 Eval(rhs, env).0, env, Eval(rhs, env).1, junk);
    case OpAssign(lhs, op, rhs) =>
      OpAssignRuns(f, lhs, op, rhs, stkp, lab, m, env, junk);
  }

  /** Where the right operand of an op= starts: the address saved, the variable fetched and pushed. */
  function OpAssignStart(s: Symbol, stkp: int, m: Machine, junk: Junk): Machine {
    Run([PushH], Run(Fetch(s), Run(Address(s, stkp) + Save(s), m, junk), junk), junk)
  }

  lemma StartRuns(f: Frame, i: nat, stkp: int, m: Machine, env: seq<Word>, junk: Junk)
    requires f.Layout(m.sp) && f.Shows(m.mem, env) && i < |f.syms| && i < |env| && f.base == m.sp - stkp
    requires f.low + Saved(f.syms[i]) + 2 + CALL_ROOM <= m.sp
    ensures
      var m1 := OpAssignStart(f.syms[i], stkp, m, junk);
      m1.sp == m.sp - Saved(f.syms[i]) - 2 && f.Layout(m1.sp) && f.Shows(m1.mem, env)
  {
    hide Run, Load, Address, Save, Fetch, Saved, Frame.Layout, Frame.Shows, Frame.Kept, Frame.Slot, Frame.Computed;
    var s := f.syms[i];
    SaveRuns(f, i, stkp, m, env, junk);
    var m1 := Run(Address(s, stkp) + Save(s), m, junk);
    FetchRuns(f, i, m1, env, junk);
    var m2 := Run(Fetch(s), m1, junk);
    ComputedFacts(f, m1, m2, env[i], env);
    PushRuns(f, m2, env, junk);
  }

  lemma OpAssignBody(f: Frame, i: nat, op: Op, stkp: int, value: seq<Instr>, lo: nat, hi: nat, m: Machine, env: seq<Word>,
                     y: Word, env': seq<Word>, junk: Junk)
    requires f.Layout(m.sp) && f.Shows(m.mem, env) && i < |f.syms| && i < |env| && f.base == m.sp - stkp
    requires f.low + Saved(f.syms[i]) + 2 + CALL_ROOM <= m.sp && lo <= hi && Tidy(value, lo, hi) && !Short(op)
    requires
      var m1 := OpAssignStart(f.syms[i], stkp, m, junk);
      f.Computed(m1, Run(value, m1, junk), y, env')
    ensures
      var x := Arith(op, env[i], y);
      f.Computed(m, Run(OpAssignCode(f.syms[i], stkp, op, value), m, junk), x, env'[i := x])
  {
    hide Run, Tidy, Load, Address, Save, Fetch, Saved, BinaryCode, AssignCode, OpAssignCode, Arith,
         Frame.Layout, Frame.Shows, Frame.Kept, Frame.Slot, Frame.Computed;
    var s := f.syms[i];
    SaveRuns(f, i, stkp, m, env, junk);
    FetchBinaryRuns(f, i, op, value, lo, hi, Run(Address(s, stkp) + Save(s), m, junk), env, y, env', junk);
    AssignRuns(f, i, stkp, Fetch(s) + BinaryCode(op, value), lo, hi, m, Arith(op, env[i], y), env, env', junk);
    OpAssignIs(s, stkp, op, value);
  }

  lemma {:induction false} OpAssignRuns(f: Frame, lhs: Expr, op: Op, rhs: Expr, stkp: int, lab: nat, m: Machine, env: seq<Word>, junk: Junk)
    requires var e := OpAssign(lhs, op, rhs); LvaluesOk(e) && Declared(e, |f.syms|) && f.low + Depth(e) + CALL_ROOM <= m.sp
    requires f.Layout(m.sp) && f.Shows(m.mem, env) && f.base == m.sp - stkp && |env| == |f.syms|
    ensures
      var e := OpAssign(lhs, op, rhs);
      f.Computed(m, Run(Value(f.syms, e, stkp, lab), m, junk), Eval(e, env).0, Eval(e, env).1)
    decreases rhs, 1
  {
    hide Run, Tidy, Load, OpAssignCode, OpAssignStart, Arith, Frame.Layout, Frame.Shows, Frame.Kept, Frame.Slot, Frame.Computed;
    TargetDeclared(lhs, |f.syms|);
    var i := Target(lhs);
    var s := f.syms[i];
    StartRuns(f, i, stkp, m, env, junk);
    ValueRuns(f, rhs, stkp - Saved(s) - 2, lab, OpAssignStart(s, stkp, m, junk), env, junk);
    ValueTidy(f.syms, rhs, stkp - Saved(s) - 2, lab);
    OpAssignBody(f, i, op, stkp, Value(f.syms, rhs, stkp - Saved(s) - 2, lab), lab, lab + Labels(rhs), m, env,
                 Eval(rhs, env).0, Eval(rhs, env).1, junk);
  }

  lemma {:induction false} RestRuns(f: Frame, rest: Rest, stkp: int, lab: nat, m: Machine, env: seq<Word>, junk: Junk)
    requires RestLvaluesOk(rest) && RestDeclared(rest, |f.syms|)
    requires f.Layout(m.sp) && f.Shows(m.mem, env) && f.base == m.sp - stkp && f.low + RestDepth(rest) + CALL_ROOM <= m.sp
    requires |env| == |f.syms|
    ensures f.Computed(m, Run(RestValue(f.syms, rest, stkp, lab), m, junk),
                       EvalRest(m.hl, rest, env).0, EvalRest(m.hl, rest, env).1)
    decreases rest
  {
    hide Run, Tidy, Load, StepCode, StepLabels, LvaluesOk, Declared, Frame.Layout, Frame.Shows, Frame.Kept, Frame.Slot, Frame.Computed, Arith;
    match rest
    case End =>
      NoCode(f, m, env, junk);
    case More(op, e, more) =>
      var lab' := lab + StepLabels(op, e);
      var code := StepCode(f.syms, op, e, stkp, lab);
      var r := StepRuns(f, op, e, stkp, lab, m, env, junk);
      var m1 := Run(code, m, junk);
      ComputedFacts(f, m, m1, r.0, r.1);
      StepTidy(f.syms, op, e, stkp, lab);
      var tail := RestValue(f.syms, more, stkp, lab');
      Runs(code, tail, lab, lab', m, junk);
      RestRuns(f, more, stkp, lab', m1, r.1, junk);
      ComputedTrans(f, m, m1, r.0, r.1, Run(tail, m1, junk), EvalRest(r.0, more, r.1).0, EvalRest(r.0, more, r.1).1);
  }

  /** One operator of a chain with its operand. */
  lemma {:induction false} StepRuns(f: Frame, op: Op, e: Expr, stkp: int, lab: nat, m: Machine, env: seq<Word>, junk: Junk)
    returns (r: (Word, seq<Word>))
    requires LvaluesOk(e) && Declared(e, |f.syms|) && |env| == |f.syms|
    requires f.Layout(m.sp) && f.Shows(m.mem, env) && f.base == m.sp - stkp && f.low + 2 + Depth(e) + CALL_ROOM <= m.sp
    ensures r == if op.LogOr? && m.hl != 0 then (1, env) else if op.LogAnd? && m.hl == 0 then (0, env)
                 else (Arith(op, m.hl, Eval(e, env).0), Eval(e, env).1)
    ensures f.Computed(m, Run(StepCode(f.syms, op, e, stkp, lab), m, junk), r.0, r.1)
    decreases e, 1
  {
    hide Run, Tidy, Load, ShortCode, BinaryCode, Frame.Layout, Frame.Shows, Frame.Kept, Frame.Slot, Frame.Computed, Arith, Value;
    var v := Eval(e, env);
    r := if op.LogOr? && m.hl != 0 then (1, env) else if op.LogAnd? && m.hl == 0 then (0, env) else (Arith(op, m.hl, v.0), v.1);
    if Short(op) {
      var m1 := m.(a := OrByte(m.hl / 256, m.hl % 256), z := m.hl == 0);
      ValueRuns(f, e, stkp, lab + 1, m1, env, junk);
      ValueTidy(f.syms, e, stkp, lab + 1);
      ShortRuns(f, op, lab, Value(f.syms, e, stkp, lab + 1), lab + 1 + Labels(e), m, env, v.0, v.1, junk);
    } else {
      PushRuns(f, m, env, junk);
      var m1 := Run([PushH], m, junk);
      ValueRuns(f, e, stkp - 2, lab, m1, env, junk);
      ValueTidy(f.syms, e, stkp - 2, lab);
      BinaryRuns(f, op, Value(f.syms, e, stkp - 2, lab), lab, lab + Labels(e), m, env, v.0, v.1, junk);
    }
  }

  lemma SameLength(f: Frame, mem: Memory, env: seq<Word>)
    requires f.Shows(mem, env)
    ensures |env| == |f.syms|
  {
  }

  lemma NoCode(f: Frame, m: Machine, env: seq<Word>, junk: Junk)
    requires f.Shows(m.mem, env)
    ensures f.Computed(m, Run([], m, junk), m.hl, env)
  {
  }

  lemma NumRuns(f: Frame, n: Word, m: Machine, env: seq<Word>, junk: Junk)
    requires f.Shows(m.mem, env)
    ensures f.Computed(m, Run([LxiH(n)], m, junk), n, env)
  {
    Run1(LxiH(n), m, junk);
  }

  lemma UnRuns(f: Frame, u: Unary, value: seq<Instr>, lo: nat, hi: nat, m: Machine, x: Word, env: seq<Word>, junk: Junk)
    requires Tidy(value, lo, hi) && f.Layout(m.sp) && f.low + CALL_ROOM <= m.sp && f.Computed(m, Run(value, m, junk), x, env)
    ensures f.Computed(m, Run(value + [Call(CcUnary(u))], m, junk), UnaryValue(u, x), env)
  {
    hide Run, Tidy, Scribbled, Frame.Layout, Frame.Shows, Frame.Kept, UnaryValue;
    var m1 := Run(value, m, junk);
    Runs(value, [Call(CcUnary(u))], lo, hi, m, junk);
    Run1(Call(CcUnary(u)), m1, junk);
    CallRuns(f, CcUnary(u), m1, env, junk);
    KeptTrans(f, m.sp, m.sp, m.mem, m1.mem, Run([Call(CcUnary(u))], m1, junk).mem);
  }

  lemma ComputedFacts(f: Frame, m: Machine, m': Machine, x: Word, env: seq<Word>)
    requires f.Computed(m, m', x, env)
    ensures m'.hl == x && m'.sp == m.sp && f.Shows(m'.mem, env) && |env| == |f.syms|
  {
  }

  lemma ComputedTrans(f: Frame, m: Machine, m1: Machine, x: Word, env: seq<Word>, m2: Machine, y: Word, env': seq<Word>)
    requires f.Computed(m, m1, x, env) && f.Computed(m1, m2, y, env')
    ensures f.Computed(m, m2, y, env')
  {
    KeptTrans(f, m.sp, m.sp, m.mem, m1.mem, m2.mem);
  }
}
