/** The code the Small C compiler emits for an expression (Applications/SmallC/expr.c, gen.c, code8080.c), and
    why running it computes the expression. */
module SmallC {
  import opened Expressions
  import opened Machine8080

  /** A variable of the function: an offset from its frame, or a fixed address. */
  datatype Symbol = Auto(offset: int) | Static(address: Word)

  type Symbols = seq<Symbol>

  /** gen_get_locale, or nothing for a static, whose address is in its access instructions. */
  function Address(s: Symbol, stkp: int): seq<Instr> {
    match s
    case Auto(offset) => [LxiH((offset - stkp) % 65536), DadSp]
    case Static(_) => []
  }

  /** rvalue of a variable. */
  function Fetch(s: Symbol): seq<Instr> {
    match s
    case Auto(_) => [Call(CcGint)]
    case Static(a) => [Lhld(a)]
  }

  /** store to a variable. */
  function StoreTo(s: Symbol): seq<Instr> {
    match s
    case Auto(_) => [PopD, Call(CcPint)]
    case Static(a) => [Shld(a)]
  }

  /** The push of an address that store will pop. */
  function Save(s: Symbol): seq<Instr> {
    match s
    case Auto(_) => [PushH]
    case Static(_) => []
  }

  function Saved(s: Symbol): nat {
    if s.Auto? then 2 else 0
  }

  /** gen_add, gen_sub and so on: the left operand is on the stack, the right one in the primary register. */
  function OpCode(op: Op): seq<Instr> {
    match op
    case Add => [PopD, DadD]
    case Div => [PopD, Call(CcDiv)]
    case Mod => [PopD, Call(CcDiv), Xchg]
    case _ => [PopD, Call(CcArith(op))]
  }

  /** gen_test_jump */
  function TestJump(lab: nat, ft: bool): seq<Instr> {
    [MovAH, OraL, if ft then Jnz(lab) else Jz(lab)]
  }

  predicate Short(op: Op) {
    op.LogOr? || op.LogAnd?
  }

  /** A variable in an expression. */
  function VarCode(s: Symbol, stkp: int): seq<Instr> {
    Address(s, stkp) + Fetch(s)
  }

  function AssignCode(s: Symbol, stkp: int, value: seq<Instr>): seq<Instr> {
    Address(s, stkp) + Save(s) + value + StoreTo(s)
  }

  function OpAssignCode(s: Symbol, stkp: int, op: Op, value: seq<Instr>): seq<Instr> {
    Address(s, stkp) + Save(s) + Fetch(s) + [PushH] + value + (OpCode(op) + StoreTo(s))
  }

  /** One more operand of && or ||. */
  function ShortCode(op: Op, lab: nat, value: seq<Instr>): seq<Instr> {
    TestJump(lab, op.LogOr?) + value + [Label(lab), Call(CcBool)]
  }

  /** One more operand of any other operator. */
  function BinaryCode(op: Op, value: seq<Instr>): seq<Instr> {
    [PushH] + value + OpCode(op)
  }

  /** How many labels e uses. */
  function Labels(e: Expr): nat
    decreases e, 0
  {
    match e
    case Num(_) => 0
    case Var(_) => 0
    case Paren(x) => Labels(x)
    case Un(_, x) => Labels(x)
    case Chain(first, rest) => Labels(first) + RestLabels(rest)
    case Assign(_, rhs) => Labels(rhs)
    case OpAssign(_, _, rhs) => Labels(rhs)
  }

  function RestLabels(rest: Rest): nat {
    match rest
    case End => 0
    case More(op, e, more) => StepLabels(op, e) + RestLabels(more)
  }

  function StepLabels(op: Op, e: Expr): nat
    decreases e, 1
  {
    (if Short(op) then 1 else 0) + Labels(e)
  }

  /** How deep e pushes, in bytes. */
  function Depth(e: Expr): nat {
    match e
    case Num(_) => 0
    case Var(_) => 0
    case Paren(x) => Depth(x)
    case Un(_, x) => Depth(x)
    case Chain(first, rest) => Max(Depth(first), RestDepth(rest))
    case Assign(_, rhs) => 2 + Depth(rhs)
    case OpAssign(_, _, rhs) => 4 + Depth(rhs)
  }

  function RestDepth(rest: Rest): nat {
    match rest
    case End => 0
    case More(op, e, more) => Max(2 + Depth(e), RestDepth(more))
  }

  function Max(a: nat, b: nat): nat {
    if a < b then b else a
  }

  /** The code for the value of e, compiled when stkp and nxtlab have these values. */
  function Value(syms: Symbols, e: Expr, stkp: int, lab: nat): seq<Instr>
    requires LvaluesOk(e) && Declared(e, |syms|)
    decreases e, 0
  {
    match e
    case Num(n) => [LxiH(n)]
    case Var(v) => VarCode(syms[v], stkp)
    case Paren(x) => Value(syms, x, stkp, lab)
    case Un(u, x) => Value(syms, x, stkp, lab) + [Call(CcUnary(u))]
    case Chain(first, rest) => Value(syms, first, stkp, lab) + RestValue(syms, rest, stkp, lab + Labels(first))
    case Assign(lhs, rhs) =>
      TargetDeclared(lhs, |syms|);
      var s := syms[Target(lhs)];
      AssignCode(s, stkp, Value(syms, rhs, stkp - Saved(s), lab))
    case OpAssign(lhs, op, rhs) =>
      TargetDeclared(lhs, |syms|);
      var s := syms[Target(lhs)];
      OpAssignCode(s, stkp, op, Value(syms, rhs, stkp - Saved(s) - 2, lab))
  }

  function RestValue(syms: Symbols, rest: Rest, stkp: int, lab: nat): seq<Instr>
    requires RestLvaluesOk(rest) && RestDeclared(rest, |syms|)
    decreases rest
  {
    match rest
    case End => []
    case More(op, e, more) =>
      StepCode(syms, op, e, stkp, lab) + RestValue(syms, more, stkp, lab + StepLabels(op, e))
  }

  /** One operator of a chain with its operand. */
  function StepCode(syms: Symbols, op: Op, e: Expr, stkp: int, lab: nat): seq<Instr>
    requires LvaluesOk(e) && Declared(e, |syms|)
    decreases e, 1
  {
    if Short(op) then ShortCode(op, lab, Value(syms, e, stkp, lab + 1)) else BinaryCode(op, Value(syms, e, stkp - 2, lab))
  }

  // ------------------------------------------------------------------ labels

  /** Every label in code is one of lo..hi-1. */
  predicate LabelsWithin(code: seq<Instr>, lo: nat, hi: nat) {
    forall i :: 0 <= i < |code| && code[i].Label? ==> lo <= code[i].lab < hi
  }

  lemma WithinAppend(a: seq<Instr>, b: seq<Instr>, lo: nat, mid: nat, hi: nat)
    requires lo <= mid <= hi && LabelsWithin(a, lo, mid) && LabelsWithin(b, mid, hi)
    ensures LabelsWithin(a + b, lo, hi)
  {
  }

  predicate Tidy(code: seq<Instr>, lo: nat, hi: nat) {
    Closed(code) && LabelsWithin(code, lo, hi)
  }

  lemma TidyAppend(a: seq<Instr>, b: seq<Instr>, lo: nat, mid: nat, hi: nat)
    requires lo <= mid <= hi && Tidy(a, lo, mid) && Tidy(b, mid, hi)
    ensures Tidy(a + b, lo, hi)
  {
    ClosedAppend(a, b);
    WithinAppend(a, b, lo, mid, hi);
  }

  /** Code without labels and jumps. */
  lemma PlainTidy(code: seq<Instr>, lab: nat)
    requires forall i :: 0 <= i < |code| ==> !code[i].Label? && !code[i].Jz? && !code[i].Jnz?
    ensures Tidy(code, lab, lab)
  {
  }

  /** Code for a value between plain code. */
  lemma AroundTidy(before: seq<Instr>, value: seq<Instr>, after: seq<Instr>, lab: nat, hi: nat)
    requires lab <= hi && Tidy(value, lab, hi)
    requires forall i :: 0 <= i < |before| ==> !before[i].Label? && !before[i].Jz? && !before[i].Jnz?
    requires forall i :: 0 <= i < |after| ==> !after[i].Label? && !after[i].Jz? && !after[i].Jnz?
    ensures Tidy(before + value + after, lab, hi)
  {
    PlainTidy(before, lab);
    PlainTidy(after, hi);
    TidyAppend(before, value, lab, lab, hi);
    TidyAppend(before + value, after, lab, hi, hi);
  }

  lemma AssignTidy(s: Symbol, stkp: int, op: Op, value: seq<Instr>, lab: nat, hi: nat)
    requires lab <= hi && Tidy(value, lab, hi)
    ensures Tidy(AssignCode(s, stkp, value), lab, hi)
    ensures Tidy(OpAssignCode(s, stkp, op, value), lab, hi)
    ensures Tidy(BinaryCode(op, value), lab, hi)
  {
    hide Tidy;
    AroundTidy(Address(s, stkp) + Save(s), value, StoreTo(s), lab, hi);
    AroundTidy(Address(s, stkp) + Save(s) + Fetch(s) + [PushH], value, OpCode(op) + StoreTo(s), lab, hi);
    AroundTidy([PushH], value, OpCode(op), lab, hi);
  }

  /** The body of a short-circuit: jump past it to the label behind it. */
  lemma ShortTidy(op: Op, lab: nat, code: seq<Instr>, hi: nat)
    requires Tidy(code, lab + 1, hi) && lab < hi
    ensures Tidy(ShortCode(op, lab, code), lab, hi)
  {
    var c := ShortCode(op, lab, code);
    forall i | 0 <= i < |c| && (c[i].Jz? || c[i].Jnz?) ensures Label(c[i].lab) in c[i + 1..] {
      if i < 3 {
        assert c[i + 1..][|code| + 2 - i] == Label(lab);
      } else {
        assert c[i + 1..] == code[i - 3 + 1..] + [Label(lab), Call(CcBool)];
      }
    }
  }

  lemma {:induction false} ValueTidy(syms: Symbols, e: Expr, stkp: int, lab: nat)
    requires LvaluesOk(e) && Declared(e, |syms|)
    ensures Tidy(Value(syms, e, stkp, lab), lab, lab + Labels(e))
    decreases e, 0
  {
    hide Tidy, VarCode, AssignCode, OpAssignCode;
    match e
    case Num(n) =>
      PlainTidy([LxiH(n)], lab);
    case Var(v) =>
      VarTidy(syms[v], stkp, lab);
    case Paren(x) =>
      ValueTidy(syms, x, stkp, lab);
    case Un(u, x) =>
      ValueTidy(syms, x, stkp, lab);
      PlainTidy([Call(CcUnary(u))], lab + Labels(e));
      TidyAppend(Value(syms, x, stkp, lab), [Call(CcUnary(u))], lab, lab + Labels(e), lab + Labels(e));
    case Chain(first, rest) =>
      ValueTidy(syms, first, stkp, lab);
      RestTidy(syms, rest, stkp, lab + Labels(first));
      TidyAppend(Value(syms, first, stkp, lab), RestValue(syms, rest, stkp, lab + Labels(first)),
                 lab, lab + Labels(first), lab + Labels(e));
    case Assign(lhs, rhs) =>
      TargetDeclared(lhs, |syms|);
      var s := syms[Target(lhs)];
      ValueTidy(syms, rhs, stkp - Saved(s), lab);
      AssignTidy(s, stkp, Add, Value(syms, rhs, stkp - Saved(s), lab), lab, lab + Labels(e));
    case OpAssign(lhs, op, rhs) =>
      TargetDeclared(lhs, |syms|);
      var s := syms[Target(lhs)];
      ValueTidy(syms, rhs, stkp - Saved(s) - 2, lab);
      AssignTidy(s, stkp, op, Value(syms, rhs, stkp - Saved(s) - 2, lab), lab, lab + Labels(e));
  }

  lemma VarTidy(s: Symbol, stkp: int, lab: nat)
    ensures Tidy(VarCode(s, stkp), lab, lab)
  {
    PlainTidy(VarCode(s, stkp), lab);
  }

  lemma {:induction false} RestTidy(syms: Symbols, rest: Rest, stkp: int, lab: nat)
    requires RestLvaluesOk(rest) && RestDeclared(rest, |syms|)
    ensures Tidy(RestValue(syms, rest, stkp, lab), lab, lab + RestLabels(rest))
    decreases rest, 0
  {
    hide Tidy, StepCode, StepLabels, LvaluesOk, Declared;
    match rest
    case End =>
      PlainTidy([], lab);
    case More(op, e, more) =>
      StepTidy(syms, op, e, stkp, lab);
      RestTidy(syms, more, stkp, lab + StepLabels(op, e));
      TidyAppend(StepCode(syms, op, e, stkp, lab), RestValue(syms, more, stkp, lab + StepLabels(op, e)),
                 lab, lab + StepLabels(op, e), lab + RestLabels(rest));
  }

  lemma {:induction false} StepTidy(syms: Symbols, op: Op, e: Expr, stkp: int, lab: nat)
    requires LvaluesOk(e) && Declared(e, |syms|)
    ensures Tidy(StepCode(syms, op, e, stkp, lab), lab, lab + StepLabels(op, e))
    decreases e, 1
  {
    hide Tidy, ShortCode, BinaryCode, Value, LvaluesOk, Declared;
    if Short(op) {
      ValueTidy(syms, e, stkp, lab + 1);
      ShortTidy(op, lab, Value(syms, e, stkp, lab + 1), lab + 1 + Labels(e));
    } else {
      ValueTidy(syms, e, stkp - 2, lab);
      AssignTidy(Static(0), stkp, op, Value(syms, e, stkp - 2, lab), lab, lab + Labels(e));
    }
  }
}
