/** The part of the 8080 that Applications/SmallC/code8080.c emits: two register pairs, a stack in byte memory,
    forward jumps, and the run-time library, which works on values as Arith says and uses the stack below SP. */
module Machine8080 {
  import opened Expressions

  type Byte = n: int | 0 <= n < 256
  type Memory = s: seq<Byte> | |s| == 65536 witness seq(65536, _ => 0)

  datatype Helper = CcGint | CcPint | CcArith(op: Op) | CcDiv | CcUnary(u: Unary) | CcBool

  datatype Instr =
    | LxiH(n: Word) | DadSp | DadD | Lhld(a: Word) | Shld(a: Word) | PushH | PopD | Xchg
    | MovAH | OraL | Jz(lab: nat) | Jnz(lab: nat) | Label(lab: nat) | Call(h: Helper)

  /** calls counts the calls made so far. */
  datatype Machine = Machine(hl: Word, de: Word, sp: Word, a: Byte, z: bool, mem: Memory, calls: nat)

  /** What is not known of the library: what the n-th call leaves in de, unless it divides, and in the byte k + 1
      below the stack pointer. */
  datatype Junk = Junk(de: nat -> Word, below: (nat, nat) -> Byte)

  /** How many bytes below the stack pointer a call uses: its return address, and what the routine in 8080/crun.asm
      pushes or calls in turn. */
  function Pushes(h: Helper): (r: nat)
    ensures 2 <= r <= CALL_ROOM
  {
    match h
    case CcGint => 2
    case CcPint => 2
    case CcArith(op) => if op.Eq? || op.Ne? || op.Lt? || op.Le? || op.Gt? || op.Ge? then 4 else 2
    case CcDiv => 8
    case CcUnary(u) => if u.Neg? then 4 else 2
    case CcBool => 4
  }

  const CALL_ROOM: nat := 8

  /** The r bytes below sp are written over. */
  function Scribbled(mem: Memory, sp: Word, r: nat, n: nat, junk: Junk): Memory {
    seq(65536, a requires 0 <= a < 65536 => ScribbledByte(mem, sp, r, n, junk, a))
  }

  function ScribbledByte(mem: Memory, sp: Word, r: nat, n: nat, junk: Junk, a: Word): Byte {
    if (sp - 1 - a) % 65536 < r then junk.below(n, (sp - 1 - a) % 65536) else mem[a]
  }

  function Load(mem: Memory, a: Word): Word {
    var lo: int, hi: int := mem[a], mem[(a + 1) % 65536];
    lo + 256 * hi
  }

  function Store(mem: Memory, a: Word, x: Word): Memory {
    mem[a := x % 256][(a + 1) % 65536 := x / 256]
  }

  /** A word is in memory with its low byte first, and a store changes its two bytes only. */
  lemma WordBytes(mem: Memory, a: Word, x: Word, b: Word)
    ensures var lo: int, hi: int := mem[a], mem[(a + 1) % 65536]; Load(mem, a) == lo + 256 * hi
    ensures Store(mem, a, x)[b] == if b == a then x % 256 else if b == (a + 1) % 65536 then x / 256 else mem[b]
  {
  }

  function OrByte(x: Byte, y: Byte): Byte {
    ((x as bv8) | (y as bv8)) as int
  }

  /** The return address and the routine's own stack come first, then the routine does its work. */
  function CallHelper(h: Helper, m0: Machine, junk: Junk): Machine {
    var m := m0.(mem := Scribbled(m0.mem, m0.sp, Pushes(h), m0.calls, junk), de := junk.de(m0.calls), calls := m0.calls + 1);
    match h
    case CcGint => m.(hl := Load(m.mem, m0.hl))
    case CcPint => m.(mem := Store(m.mem, m0.de, m0.hl))
    case CcArith(op) => m.(hl := Arith(op, m0.de, m0.hl))
    case CcDiv => m.(hl := Arith(Div, m0.de, m0.hl), de := Arith(Mod, m0.de, m0.hl))
    case CcUnary(u) => m.(hl := UnaryValue(u, m0.hl))
    case CcBool => m.(hl := Bool(m0.hl != 0))
  }

  /** One instruction that does not jump. */
  function Do(i: Instr, m: Machine, junk: Junk): Machine {
    match i
    case LxiH(n) => m.(hl := n)
    case DadSp => m.(hl := (m.hl + m.sp) % 65536)
    case DadD => m.(hl := (m.hl + m.de) % 65536)
    case Lhld(a) => m.(hl := Load(m.mem, a))
    case Shld(a) => m.(mem := Store(m.mem, a, m.hl))
    case PushH => m.(sp := (m.sp - 2) % 65536, mem := Store(m.mem, (m.sp - 2) % 65536, m.hl))
    case PopD => m.(de := Load(m.mem, m.sp), sp := (m.sp + 2) % 65536)
    case Xchg => m.(hl := m.de, de := m.hl)
    case MovAH => m.(a := m.hl / 256)
    case OraL => m.(a := OrByte(m.a, m.hl % 256), z := m.a == 0 && m.hl % 256 == 0)
    case Call(h) => CallHelper(h, m, junk)
    case Label(_) => m
    case Jz(_) => m
    case Jnz(_) => m
  }

  /** The code behind the first definition of lab. */
  function After(code: seq<Instr>, lab: nat): (rest: seq<Instr>)
    ensures |rest| <= |code|
  {
    if code == [] then [] else if code[0] == Label(lab) then code[1..] else After(code[1..], lab)
  }

  function Run(code: seq<Instr>, m: Machine, junk: Junk): Machine
    decreases |code|
  {
    if code == [] then m
    else if (code[0].Jz? && m.z) || (code[0].Jnz? && !m.z) then Run(After(code[1..], code[0].lab), m, junk)
    else Run(code[1..], Do(code[0], m, junk), junk)
  }

  /** Every jump of code goes to a label further on in it. */
  predicate Closed(code: seq<Instr>) {
    forall i :: 0 <= i < |code| && (code[i].Jz? || code[i].Jnz?) ==> Label(code[i].lab) in code[i + 1..]
  }

  lemma {:induction false} AfterAppend(a: seq<Instr>, b: seq<Instr>, lab: nat)
    ensures Label(lab) in a ==> After(a + b, lab) == After(a, lab) + b
    ensures Label(lab) !in a ==> After(a + b, lab) == After(b, lab)
    ensures Closed(a) ==> Closed(After(a, lab))
  {
    if a == [] {
      assert a + b == b;
    } else {
      assert (a + b)[1..] == a[1..] + b;
      AfterAppend(a[1..], b, lab);
      if Closed(a) {
        ClosedTail(a);
      }
    }
  }

  lemma ClosedTail(a: seq<Instr>)
    requires Closed(a) && a != []
    ensures Closed(a[1..])
  {
    forall i | 0 <= i < |a[1..]| && (a[1..][i].Jz? || a[1..][i].Jnz?) ensures Label(a[1..][i].lab) in a[1..][i + 1..] {
      assert a[1..][i + 1..] == a[i + 2..] && a[1..][i] == a[i + 1];
    }
  }

  /** Closed pieces of code run one after the other. */
  lemma {:induction false} RunAppend(a: seq<Instr>, b: seq<Instr>, m: Machine, junk: Junk)
    requires Closed(a)
    ensures Run(a + b, m, junk) == Run(b, Run(a, m, junk), junk)
    decreases |a|
  {
    if a == [] {
      assert a + b == b;
    } else {
      assert (a + b)[1..] == a[1..] + b;
      ClosedTail(a);
      if (a[0].Jz? && m.z) || (a[0].Jnz? && !m.z) {
        assert Label(a[0].lab) in a[0 + 1..];
        AfterAppend(a[1..], b, a[0].lab);
        RunAppend(After(a[1..], a[0].lab), b, m, junk);
      } else {
        RunAppend(a[1..], b, Do(a[0], m, junk), junk);
      }
    }
  }

  lemma ClosedAppend(a: seq<Instr>, b: seq<Instr>)
    requires Closed(a) && Closed(b)
    ensures Closed(a + b)
  {
    var c := a + b;
    forall i | 0 <= i < |c| && (c[i].Jz? || c[i].Jnz?) ensures Label(c[i].lab) in c[i + 1..] {
      if i < |a| {
        assert c[i + 1..] == a[i + 1..] + b;
      } else {
        assert c[i + 1..] == b[i - |a| + 1..];
      }
    }
  }
}
