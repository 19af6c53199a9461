/** The expressions the Small C compiler reads (Applications/SmallC/expr.c): int constants, int variables,
    parentheses, unary and binary operators, && and ||, and assignments, as the source writes them down. */
module Expressions {
  type Word = n: int | 0 <= n < 65536

  datatype Op =
    | LogOr | LogAnd | Or | Xor | And | Eq | Ne | Lt | Le | Gt | Ge | Shr | Shl | Add | Sub | Mul | Div | Mod

  datatype Unary = Neg | Com | Not

  /** hier1, hier1b, hier1c, hier2 to hier9 and hier10, numbered in that order. */
  function Level(op: Op): (n: nat)
    ensures 1 <= n <= 10
  {
    match op
    case LogOr => 1
    case LogAnd => 2
    case Or => 3
    case Xor => 4
    case And => 5
    case Eq => 6
    case Ne => 6
    case Lt => 7
    case Le => 7
    case Gt => 7
    case Ge => 7
    case Shr => 8
    case Shl => 8
    case Add => 9
    case Sub => 9
    case Mul => 10
    case Div => 10
    case Mod => 10
  }

  predicate Assignable(op: Op) {
    op.Or? || op.Xor? || op.And? || op.Shr? || op.Shl? || op.Add? || op.Sub? || op.Mul? || op.Div? || op.Mod?
  }

  /** Syntax as written: a chain is a first operand followed by operators of one level with their operands. */
  datatype Expr =
    | Num(n: Word)
    | Var(v: nat)
    | Paren(e: Expr)
    | Un(u: Unary, e: Expr)
    | Chain(first: Expr, rest: Rest)
    | Assign(lhs: Expr, rhs: Expr)
    | OpAssign(lhs: Expr, op: Op, rhs: Expr)

  datatype Rest = End | More(op: Op, e: Expr, rest: Rest)

  /** e may stand where the grammar asks for level. */
  predicate Fits(e: Expr, level: nat) {
    match e
    case Num(_) => true
    case Var(_) => true
    case Paren(x) => Fits(x, 0)
    case Un(_, x) => level <= 11 && Fits(x, 11)
    case Chain(first, rest) =>
      rest.More? && level <= Level(rest.op) && Fits(first, Level(rest.op) + 1) && RestFits(rest, Level(rest.op))
    case Assign(lhs, rhs) => level == 0 && Fits(lhs, 1) && Fits(rhs, 0)
    case OpAssign(lhs, op, rhs) => level == 0 && Assignable(op) && Fits(lhs, 1) && Fits(rhs, 0)
  }

  predicate RestFits(rest: Rest, level: nat) {
    rest.More? ==> Level(rest.op) == level && Fits(rest.e, level + 1) && RestFits(rest.rest, level)
  }

  datatype Token =
    | TNum(n: Word) | TId(v: nat) | LParen | RParen | TOp(op: Op) | Tilde | Bang | Equals | OpEquals(op: Op) | Stop

  function UnaryToken(u: Unary): Token {
    match u
    case Neg => TOp(Sub)
    case Com => Tilde
    case Not => Bang
  }

  function Tokens(e: Expr): (s: seq<Token>)
    ensures |s| > 0
  {
    match e
    case Num(n) => [TNum(n)]
    case Var(v) => [TId(v)]
    case Paren(x) => [LParen] + Tokens(x) + [RParen]
    case Un(u, x) => [UnaryToken(u)] + Tokens(x)
    case Chain(first, rest) => Tokens(first) + RestTokens(rest)
    case Assign(lhs, rhs) => Tokens(lhs) + [Equals] + Tokens(rhs)
    case OpAssign(lhs, op, rhs) => Tokens(lhs) + [OpEquals(op)] + Tokens(rhs)
  }

  function RestTokens(rest: Rest): seq<Token> {
    match rest
    case End => []
    case More(op, e, more) => [TOp(op)] + Tokens(e) + RestTokens(more)
  }

  /** A variable, perhaps in parentheses. */
  predicate IsLvalue(e: Expr) {
    e.Var? || (e.Paren? && IsLvalue(e.e))
  }

  function Target(e: Expr): nat
    requires IsLvalue(e)
  {
    if e.Var? then e.v else Target(e.e)
  }

  /** Every assignment in e assigns to a variable, with an operator that has an assignment form. */
  predicate LvaluesOk(e: Expr) {
    match e
    case Num(_) => true
    case Var(_) => true
    case Paren(x) => LvaluesOk(x)
    case Un(_, x) => LvaluesOk(x)
    case Chain(first, rest) => LvaluesOk(first) && RestLvaluesOk(rest)
    case Assign(lhs, rhs) => IsLvalue(lhs) && LvaluesOk(rhs)
    case OpAssign(lhs, op, rhs) => IsLvalue(lhs) && Assignable(op) && LvaluesOk(rhs)
  }

  predicate RestLvaluesOk(rest: Rest) {
    rest.More? ==> LvaluesOk(rest.e) && RestLvaluesOk(rest.rest)
  }

  /** Every variable of e is one of the first vars. */
  predicate Declared(e: Expr, vars: nat) {
    match e
    case Num(_) => true
    case Var(v) => v < vars
    case Paren(x) => Declared(x, vars)
    case Un(_, x) => Declared(x, vars)
    case Chain(first, rest) => Declared(first, vars) && RestDeclared(rest, vars)
    case Assign(lhs, rhs) => Declared(lhs, vars) && Declared(rhs, vars)
    case OpAssign(lhs, _, rhs) => Declared(lhs, vars) && Declared(rhs, vars)
  }

  predicate RestDeclared(rest: Rest, vars: nat) {
    rest.More? ==> Declared(rest.e, vars) && RestDeclared(rest.rest, vars)
  }

  lemma {:induction false} TargetDeclared(e: Expr, vars: nat)
    requires IsLvalue(e) && Declared(e, vars)
    ensures Target(e) < vars
  {
    if e.Paren? {
      TargetDeclared(e.e, vars);
    }
  }

  // ------------------------------------------------------------------ meaning

  function Signed(x: Word): int {
    if x < 32768 then x else x - 65536
  }

  function Bool(b: bool): Word {
    if b then 1 else 0
  }

  datatype Gate = AndGate | OrGate | XorGate

  function Output(g: Gate, a: bool, b: bool): bool {
    match g
    case AndGate => a && b
    case OrGate => a || b
    case XorGate => a != b
  }

  /** A number of k bits, from the bits of two others. */
  function Bits(g: Gate, x: nat, y: nat, k: nat): (r: nat) {
    if k == 0 then 0
    else 2 * Bits(g, x / 2, y / 2, k - 1) + if Output(g, x % 2 == 1, y % 2 == 1) then 1 else 0
  }

  function Power(k: nat): (p: nat)
    ensures p >= 1
  {
    if k == 0 then 1 else 2 * Power(k - 1)
  }

  lemma {:induction false} BitsFit(g: Gate, x: nat, y: nat, k: nat)
    ensures Bits(g, x, y, k) < Power(k)
    decreases k
  {
    if k > 0 {
      BitsFit(g, x / 2, y / 2, k - 1);
    }
  }

  function Bitwise(g: Gate, x: Word, y: Word): Word {
    BitsFit(g, x, y, 16);
    assert Power(16) == 65536 by {
      assert Power(4) == 16 && Power(8) == 256 && Power(12) == 4096;
    }
    Bits(g, x, y, 16)
  }

  /** C's division rounds towards zero. */
  function Quotient(x: int, y: int): int {
    if y == 0 then 0
    else if (x < 0) == (y < 0) then Magnitude(x) / Magnitude(y)
    else -(Magnitude(x) / Magnitude(y))
  }

  function Magnitude(x: int): nat {
    if x < 0 then -x else x
  }

  function ShiftLeft(x: Word, n: nat): Word
    decreases n
  {
    if n == 0 then x else ShiftLeft(x * 2 % 65536, n - 1)
  }

  function ShiftRight(x: Word, n: nat): Word
    decreases n
  {
    if n == 0 then x else ShiftRight(Signed(x) / 2 % 65536, n - 1)
  }

  /** The shift loops count the low byte of y down to -1, and 129 and more already look negative. */
  function Shifts(y: Word): nat {
    if y % 256 <= 128 then y % 256 else 0
  }

  /** What ?div leaves as remainder: it divides magnitudes, and gives the remainder the sign of the quotient. */
  function Remainder(x: int, y: int): int {
    if y == 0 then x
    else if (x < 0) == (y < 0) then Magnitude(x) % Magnitude(y)
    else -(Magnitude(x) % Magnitude(y))
  }

  /** What ?cmp tells of the difference of x and y, cut to 16 bits. */
  predicate Negative(x: Word, y: Word) {
    (x - y) % 65536 >= 32768
  }

  /** An operator of hier2 to hier9, as the library works it out. */
  function Arith(op: Op, x: Word, y: Word): Word {
    match op
    case LogOr => Bool(x != 0 || y != 0)
    case LogAnd => Bool(x != 0 && y != 0)
    case Or => Bitwise(OrGate, x, y)
    case Xor => Bitwise(XorGate, x, y)
    case And => Bitwise(AndGate, x, y)
    case Eq => Bool(x == y)
    case Ne => Bool(x != y)
    case Lt => Bool(Negative(x, y))
    case Le => Bool(x == y || Negative(x, y))
    case Gt => Bool(Negative(y, x))
    case Ge => Bool(!Negative(x, y))
    case Shr => ShiftRight(x, Shifts(y))
    case Shl => ShiftLeft(x, Shifts(y))
    case Add => (x + y) % 65536
    case Sub => (x - y) % 65536
    case Mul => x * y % 65536
    case Div => Quotient(Signed(x), Signed(y)) % 65536
    case Mod => Remainder(Signed(x), Signed(y)) % 65536
  }

  function UnaryValue(u: Unary, x: Word): Word {
    match u
    case Neg => (0 - x) % 65536
    case Com => 65535 - x
    case Not => Bool(x == 0)
  }

  /** The value of e and the variables after its assignments. */
  function Eval(e: Expr, env: seq<Word>): (r: (Word, seq<Word>))
    requires LvaluesOk(e) && Declared(e, |env|)
    ensures |r.1| == |env|
    decreases e
  {
    match e
    case Num(n) => (n, env)
    case Var(v) => (env[v], env)
    case Paren(x) => Eval(x, env)
    case Un(u, x) => var r := Eval(x, env); (UnaryValue(u, r.0), r.1)
    case Chain(first, rest) => var r := Eval(first, env); EvalRest(r.0, rest, r.1)
    case Assign(lhs, rhs) =>
      TargetDeclared(lhs, |env|);
      var r := Eval(rhs, env);
      (r.0, r.1[Target(lhs) := r.0])
    case OpAssign(lhs, op, rhs) =>
      TargetDeclared(lhs, |env|);
      var r := Eval(rhs, env);
      var value := Arith(op, env[Target(lhs)], r.0);
      (value, r.1[Target(lhs) := value])
  }

  /** Operators of one level apply from left to right, and && and || skip what they do not need. */
  function EvalRest(acc: Word, rest: Rest, env: seq<Word>): (r: (Word, seq<Word>))
    requires RestLvaluesOk(rest) && RestDeclared(rest, |env|)
    ensures |r.1| == |env|
    decreases rest
  {
    match rest
    case End => (acc, env)
    case More(op, e, more) =>
      if op.LogOr? && acc != 0 then EvalRest(1, more, env)
      else if op.LogAnd? && acc == 0 then EvalRest(0, more, env)
      else var r := Eval(e, env); EvalRest(Arith(op, acc, r.0), more, r.1)
  }

  /** One operator applied to what stands on its left. */
  function Applied(acc: Word, op: Op, e: Expr, env: seq<Word>): (r: (Word, seq<Word>))
    requires LvaluesOk(e) && Declared(e, |env|)
    ensures |r.1| == |env|
  {
    if op.LogOr? && acc != 0 then (1, env)
    else if op.LogAnd? && acc == 0 then (0, env)
    else var r := Eval(e, env); (Arith(op, acc, r.0), r.1)
  }

  /** A chain with one more operator at its end. */
  function Extended(rest: Rest, op: Op, e: Expr): Rest {
    match rest
    case End => More(op, e, End)
    case More(o, x, more) => More(o, x, Extended(more, op, e))
  }

  /** Operators of one level group to the left: the last one applies to all that comes before it. */
  lemma {:induction false} LeftToRight(acc: Word, rest: Rest, op: Op, e: Expr, env: seq<Word>)
    requires RestLvaluesOk(rest) && RestDeclared(rest, |env|) && LvaluesOk(e) && Declared(e, |env|)
    ensures RestLvaluesOk(Extended(rest, op, e)) && RestDeclared(Extended(rest, op, e), |env|)
    ensures EvalRest(acc, Extended(rest, op, e), env) == var r := EvalRest(acc, rest, env); Applied(r.0, op, e, r.1)
    decreases rest
  {
    match rest
    case End =>
    case More(o, x, more) =>
      var r := Applied(acc, o, x, env);
      LeftToRight(r.0, more, op, e, r.1);
  }
}
