/** How Small C groups an expression (Applications/SmallC/expr.c): a text has one reading, and it is the one that C's
    table of precedence gives. */
module Grammar {
  import opened Expressions
  import opened Operators

  /** What may stand behind an expression of a level: no operator that would go on with it. */
  predicate Ends(s: seq<Token>, level: nat) {
    s == [] || ((s[0].TOp? ==> Level(s[0].op) < level) && (level == 0 ==> !s[0].Equals? && !s[0].OpEquals?))
  }

  /** An expression of levels 1 to 10 is a chain of that level, perhaps of one operand. */
  function First(e: Expr, level: nat): Expr {
    if e.Chain? && e.rest.More? && Level(e.rest.op) == level then e.first else e
  }

  function Others(e: Expr, level: nat): Rest {
    if e.Chain? && e.rest.More? && Level(e.rest.op) == level then e.rest else End
  }

  lemma Parts(e: Expr, level: nat)
    requires Fits(e, level) && 1 <= level <= 10
    ensures Fits(First(e, level), level + 1) && RestFits(Others(e, level), level)
    ensures Tokens(e) == Tokens(First(e, level)) + RestTokens(Others(e, level))
    ensures Others(e, level) != End ==> e == Chain(First(e, level), Others(e, level))
    ensures Others(e, level) == End ==> e == First(e, level)
    ensures |Tokens(First(e, level))| > 0
  {
    assert Others(e, level) == End ==> Tokens(e) == Tokens(e) + [];
  }

  /** What follows the first operand of a chain. */
  lemma Goes(rest: Rest, s: seq<Token>, level: nat)
    requires RestFits(rest, level) && level >= 1 && Ends(s, level)
    ensures Ends(RestTokens(rest) + s, level + 1)
  {
    if rest.More? {
      assert (RestTokens(rest) + s)[0] == TOp(rest.op);
    } else {
      assert RestTokens(rest) + s == s;
    }
  }

  /** A text is an expression in one way only. */
  lemma {:induction false} OneReading(e: Expr, s: seq<Token>, f: Expr, t: seq<Token>, level: nat)
    requires level <= 12 && Fits(e, level) && Fits(f, level) && Ends(s, level) && Ends(t, level)
    requires Tokens(e) + s == Tokens(f) + t
    ensures e == f && s == t
    decreases |Tokens(e)|, 2 * (12 - level) + 1
  {
    hide Fits, RestFits, Tokens, RestTokens, Ends;
    if level == 0 {
      OneStatement(e, s, f, t);
    } else if level <= 10 {
      Parts(e, level);
      Parts(f, level);
      var x, y, r, q := First(e, level), First(f, level), Others(e, level), Others(f, level);
      Goes(r, s, level);
      Goes(q, t, level);
      assert Tokens(x) + (RestTokens(r) + s) == Tokens(e) + s;
      assert Tokens(y) + (RestTokens(q) + t) == Tokens(f) + t;
      OneReading(x, RestTokens(r) + s, y, RestTokens(q) + t, level + 1);
      OneChain(r, s, q, t, level);
    } else {
      OneOperand(e, s, f, t, level);
    }
  }

  /** Level 11 and 12: a number, a variable, parentheses or a unary operator. */
  lemma {:induction false} OneOperand(e: Expr, s: seq<Token>, f: Expr, t: seq<Token>, level: nat)
    requires 11 <= level <= 12 && Fits(e, level) && Fits(f, level) && Ends(s, level) && Ends(t, level)
    requires Tokens(e) + s == Tokens(f) + t
    ensures e == f && s == t
    decreases |Tokens(e)|, 2 * (12 - level)
  {
    hide Fits, Tokens, Ends;
    Begins(e, s, level);
    Begins(f, t, level);
    var a, b := Tokens(e) + s, Tokens(f) + t;
    if e.Paren? {
      OneReading(e.e, [RParen] + s, f.e, [RParen] + t, 0);
      assert ([RParen] + s)[1..] == s && ([RParen] + t)[1..] == t;
    } else if e.Un? {
      OneReading(e.e, s, f.e, t, 11);
    }
  }

  /** Its first token says what an operand is. */
  lemma Begins(e: Expr, s: seq<Token>, level: nat)
    requires 11 <= level <= 12 && Fits(e, level) && Ends(s, level)
    ensures Tokens(e) + s != []
    ensures
      var a := Tokens(e) + s;
      match e
      case Num(n) => a[0] == TNum(n) && a[1..] == s
      case Var(v) => a[0] == TId(v) && a[1..] == s
      case Paren(x) =>
        a[0] == LParen && a[1..] == Tokens(x) + ([RParen] + s) && Fits(x, 0) && Ends([RParen] + s, 0) && |Tokens(x)| < |Tokens(e)|
      case Un(u, x) =>
        a[0] == UnaryToken(u) && a[1..] == Tokens(x) + s && Fits(x, 11) && Ends(s, 11) && level == 11 && |Tokens(x)| < |Tokens(e)|
      case _ => false
  {
    var a := Tokens(e) + s;
    assert a[0] == Tokens(e)[0];
    if e.Paren? {
      assert a[1..] == Tokens(e.e) + ([RParen] + s);
    } else if e.Un? {
      assert a[1..] == Tokens(e.e) + s;
    }
  }

  lemma Head(rest: Rest, s: seq<Token>, level: nat)
    requires RestFits(rest, level)
    ensures rest.End? ==> RestTokens(rest) + s == s
    ensures rest.More? ==>
      && Level(rest.op) == level && Fits(rest.e, level + 1) && RestFits(rest.rest, level)
      && RestTokens(rest) + s == [TOp(rest.op)] + (Tokens(rest.e) + (RestTokens(rest.rest) + s))
      && |Tokens(rest.e)| < |RestTokens(rest)| && |RestTokens(rest.rest)| < |RestTokens(rest)|
  {
  }

  lemma Stops(op: Op, x: seq<Token>, s: seq<Token>, level: nat)
    requires Ends(s, level) && s == [TOp(op)] + x
    ensures Level(op) < level
  {
    assert s[0] == TOp(op);
  }

  lemma Next(op: Op, x: seq<Token>, op': Op, x': seq<Token>)
    requires [TOp(op)] + x == [TOp(op')] + x'
    ensures op == op' && x == x'
  {
    assert ([TOp(op)] + x)[0] == TOp(op) && ([TOp(op')] + x')[0] == TOp(op');
    assert ([TOp(op)] + x)[1..] == x && ([TOp(op')] + x')[1..] == x';
  }

  lemma {:induction false} OneChain(r: Rest, s: seq<Token>, q: Rest, t: seq<Token>, level: nat)
    requires 1 <= level <= 10 && RestFits(r, level) && RestFits(q, level) && Ends(s, level) && Ends(t, level)
    requires RestTokens(r) + s == RestTokens(q) + t
    ensures r == q && s == t
    decreases |RestTokens(r)|, 0
  {
    hide Fits, RestFits, Tokens, RestTokens, Ends, Level;
    Head(r, s, level);
    Head(q, t, level);
    if r.More? && q.More? {
      var x, y := RestTokens(r.rest) + s, RestTokens(q.rest) + t;
      Next(r.op, Tokens(r.e) + x, q.op, Tokens(q.e) + y);
      Goes(r.rest, s, level);
      Goes(q.rest, t, level);
      OneReading(r.e, x, q.e, y, level + 1);
      OneChain(r.rest, s, q.rest, t, level);
    } else if r.More? {
      Stops(r.op, Tokens(r.e) + (RestTokens(r.rest) + s), t, level);
    } else if q.More? {
      Stops(q.op, Tokens(q.e) + (RestTokens(q.rest) + t), s, level);
    }
  }

  /** What an expression of level 0 assigns to, or all of it. */
  function Left(e: Expr): Expr {
    if e.Assign? || e.OpAssign? then e.lhs else e
  }

  predicate Assigns(e: Expr) {
    e.Assign? || e.OpAssign?
  }

  /** The sign of an assignment. */
  function Sign(e: Expr): Token
    requires Assigns(e)
  {
    if e.Assign? then Equals else OpEquals(e.op)
  }

  function Right(e: Expr): Expr
    requires Assigns(e)
  {
    e.rhs
  }

  lemma LeftParts(e: Expr, s: seq<Token>)
    requires Fits(e, 0) && Ends(s, 0)
    ensures Fits(Left(e), 1) && Tokens(e) + s == Tokens(Left(e)) + Behind(e, s) && Ends(Behind(e, s), 1)
    ensures |Tokens(Left(e))| <= |Tokens(e)|
    ensures Assigns(e) ==> Fits(Right(e), 0) && |Tokens(Right(e))| < |Tokens(e)|
  {
    hide Fits, Tokens, Level, Ends, Behind, Left, Right, Sign;
    NextSign(e, s);
    if Assigns(e) {
      Sides(e);
      Regroup(Tokens(Left(e)), Sign(e), Tokens(Right(e)), s);
    } else {
      NoSides(e);
    }
  }

  lemma Regroup(l: seq<Token>, t: Token, r: seq<Token>, s: seq<Token>)
    ensures (l + [t] + r) + s == l + ([t] + (r + s))
  {
  }

  lemma NextSign(e: Expr, s: seq<Token>)
    requires Ends(s, 0)
    ensures Behind(e, s) == (if Assigns(e) then [Sign(e)] + (Tokens(Right(e)) + s) else s) && Ends(Behind(e, s), 1)
    ensures !Assigns(e) ==> Left(e) == e
  {
    hide Tokens, Level;
    assert Assigns(e) ==> Behind(e, s)[0] == Sign(e);
  }

  lemma Sides(e: Expr)
    requires Assigns(e) && Fits(e, 0)
    ensures Fits(Left(e), 1) && Fits(Right(e), 0) && Tokens(e) == Tokens(Left(e)) + [Sign(e)] + Tokens(Right(e))
  {
  }

  lemma NoSides(e: Expr)
    requires !Assigns(e) && Fits(e, 0)
    ensures Fits(e, 1)
  {
    assert e.Chain? ==> Level(e.rest.op) >= 1;
  }

  /** What stands behind the left side. */
  function Behind(e: Expr, s: seq<Token>): seq<Token> {
    if Assigns(e) then [Sign(e)] + (Tokens(Right(e)) + s) else s
  }

  lemma SameSign(e: Expr, s: seq<Token>, f: Expr, t: seq<Token>)
    requires Ends(s, 0) && Ends(t, 0) && Behind(e, s) == Behind(f, t)
    ensures Assigns(e) == Assigns(f)
    ensures if Assigns(e) then Sign(e) == Sign(f) && Tokens(Right(e)) + s == Tokens(Right(f)) + t else s == t
  {
    hide Tokens;
    var a, b := Behind(e, s), Behind(f, t);
    if Assigns(e) {
      assert a[0] == Sign(e) && a[1..] == Tokens(Right(e)) + s;
    }
    if Assigns(f) {
      assert b[0] == Sign(f) && b[1..] == Tokens(Right(f)) + t;
    }
  }

  lemma {:induction false} OneStatement(e: Expr, s: seq<Token>, f: Expr, t: seq<Token>)
    requires Fits(e, 0) && Fits(f, 0) && Ends(s, 0) && Ends(t, 0)
    requires Tokens(e) + s == Tokens(f) + t
    ensures e == f && s == t
    decreases |Tokens(e)|, 24
  {
    hide Fits, Tokens, Ends, Behind;
    LeftParts(e, s);
    LeftParts(f, t);
    OneReading(Left(e), Behind(e, s), Left(f), Behind(f, t), 1);
    SameSign(e, s, f, t);
    if Assigns(e) {
      OneReading(Right(e), s, Right(f), t, 0);
    }
  }

  /** The text of an expression says which it is. */
  lemma Unambiguous(e: Expr, f: Expr)
    requires Fits(e, 0) && Fits(f, 0) && Tokens(e) == Tokens(f)
    ensures e == f
  {
    assert Tokens(e) + [] == Tokens(f) + [];
    OneReading(e, [], f, [], 0);
  }

  // ------------------------------------------------------------------ every tree can be written

  /** e with parentheses wherever they can be. */
  function Braced(e: Expr): Expr {
    match e
    case Num(_) => e
    case Var(_) => e
    case Paren(x) => Braced(x)
    case Un(u, x) => Paren(Un(u, Braced(x)))
    case Chain(first, rest) => BracedRest(Braced(first), rest)
    case Assign(lhs, rhs) => Paren(Assign(Braced(lhs), Braced(rhs)))
    case OpAssign(lhs, op, rhs) => Paren(OpAssign(Braced(lhs), op, Braced(rhs)))
  }

  function BracedRest(acc: Expr, rest: Rest): Expr
    decreases rest
  {
    match rest
    case End => acc
    case More(op, x, more) => BracedRest(Paren(Pair(acc, op, Braced(x))), more)
  }

  lemma {:induction false} BracedTarget(e: Expr)
    requires IsLvalue(e)
    ensures Braced(e) == Var(Target(e))
  {
    if e.Paren? {
      BracedTarget(e.e);
    }
  }

  /** Whatever the tree, there is a text with its value. */
  lemma {:induction false} Writable(e: Expr, env: seq<Word>)
    requires Ok(e, env)
    ensures Fits(Braced(e), 12) && Ok(Braced(e), env) && Eval(Braced(e), env) == Eval(e, env)
    decreases e
  {
    hide Arith, Pair;
    match e
    case Num(_) =>
    case Var(_) =>
    case Paren(x) => Writable(x, env);
    case Un(u, x) =>
      Writable(x, env);
      Lower12(Braced(x), 11);
      UnEval(u, Braced(x), env);
      ParenOk(Un(u, Braced(x)), env);
    case Chain(first, rest) =>
      Writable(first, env);
      WritableRest(Braced(first), rest, env);
    case Assign(lhs, rhs) =>
      Writable(rhs, env);
      BracedTarget(lhs);
      TargetDeclared(lhs, |env|);
      Lower12(Braced(rhs), 0);
      AssignEval(Target(lhs), Braced(rhs), env);
      assert Fits(Var(Target(lhs)), 1) && Fits(Assign(Braced(lhs), Braced(rhs)), 0);
    case OpAssign(lhs, op, rhs) =>
      Writable(rhs, env);
      BracedTarget(lhs);
      TargetDeclared(lhs, |env|);
      Lower12(Braced(rhs), 0);
      OpAssignEval(Target(lhs), op, Braced(rhs), env);
      assert Fits(Var(Target(lhs)), 1) && Fits(OpAssign(Braced(lhs), op, Braced(rhs)), 0);
  }

  lemma UnEval(u: Unary, x: Expr, env: seq<Word>)
    requires Ok(x, env)
    ensures Ok(Un(u, x), env) && Eval(Un(u, x), env) == (UnaryValue(u, Eval(x, env).0), Eval(x, env).1)
  {
  }

  lemma {:induction false} WritableRest(acc: Expr, rest: Rest, env: seq<Word>)
    requires Fits(acc, 12) && Ok(acc, env) && RestLvaluesOk(rest) && RestDeclared(rest, |env|)
    ensures
      var b, a := BracedRest(acc, rest), Eval(acc, env);
      Fits(b, 12) && Ok(b, env) && Eval(b, env) == EvalRest(a.0, rest, a.1)
    decreases rest
  {
    hide Arith, Pair;
    match rest
    case End =>
    case More(op, x, more) =>
      var a := Eval(acc, env);
      Writable(x, a.1);
      PairEval(acc, op, Braced(x), env);
      Lower12(acc, 11);
      Lower12(Braced(x), 11);
      PairFits(acc, op, Braced(x), Level(op) + 1);
      ParenOk(Pair(acc, op, Braced(x)), env);
      WritableRest(Paren(Pair(acc, op, Braced(x))), more, env);
  }

  lemma Lower12(e: Expr, level: nat)
    requires level <= 12 && Fits(e, 12)
    ensures Fits(e, level)
  {
  }

  // ------------------------------------------------------------------ precedence

  /** C's binary operators, those that bind tightest first. */
  const PRECEDENCE: seq<seq<Op>> :=
    [[Mul, Div, Mod], [Add, Sub], [Shl, Shr], [Lt, Le, Gt, Ge], [Eq, Ne], [And], [Xor], [Or], [LogAnd], [LogOr]]

  predicate InRow(op: Op, i: nat) {
    i < |PRECEDENCE| && op in PRECEDENCE[i]
  }

  lemma EveryRow(op: Op)
    ensures exists i :: InRow(op, i)
  {
    assert InRow(op, match op
                     case Mul => 0 case Div => 0 case Mod => 0 case Add => 1 case Sub => 1 case Shl => 2 case Shr => 2
                     case Lt => 3 case Le => 3 case Gt => 3 case Ge => 3 case Eq => 4 case Ne => 4 case And => 5
                     case Xor => 6 case Or => 7 case LogAnd => 8 case LogOr => 9);
  }

  lemma RowLevel(op: Op, i: nat)
    requires InRow(op, i)
    ensures Level(op) + i == 10
  {
  }

  /** x op y */
  function Pair(x: Expr, op: Op, y: Expr): (e: Expr)
    ensures Tokens(e) == Tokens(x) + [TOp(op)] + Tokens(y)
    ensures forall env :: Ok(x, env) && Ok(y, env) ==> Ok(e, env)
  {
    var rest := More(op, y, End);
    assert RestTokens(rest) == [TOp(op)] + Tokens(y) && RestTokens(End) == [];
    assert forall n :: Declared(y, n) ==> RestDeclared(rest, n) by {
      assert forall n :: RestDeclared(End, n);
    }
    assert LvaluesOk(y) ==> RestLvaluesOk(rest) by {
      assert RestLvaluesOk(End);
    }
    Chain(x, rest)
  }

  predicate Ok(e: Expr, env: seq<Word>) {
    LvaluesOk(e) && Declared(e, |env|)
  }

  lemma PairEval(x: Expr, op: Op, y: Expr, env: seq<Word>)
    requires Ok(x, env) && Ok(y, env)
    ensures var l := Eval(x, env); Eval(Pair(x, op, y), env) == Applied(l.0, op, y, l.1)
    ensures Ok(Paren(x), env) && Eval(Paren(x), env) == Eval(x, env)
  {
    hide Arith;
    var l := Eval(x, env);
    assert RestLvaluesOk(End) && RestDeclared(End, |env|);
    Unrolled(x, op, y, End, env);
    assert forall a: Word, n: seq<Word> :: EvalRest(a, End, n) == (a, n);
  }

  lemma TripleText(x: Expr, op: Op, y: Expr, op': Op, z: Expr, env: seq<Word>)
    requires Ok(x, env) && Ok(y, env) && Ok(z, env)
    ensures
      var e := Chain(x, More(op, y, More(op', z, End)));
      Tokens(e) == Tokens(x) + [TOp(op)] + Tokens(y) + [TOp(op')] + Tokens(z) && Ok(e, env)
  {
    var rest := More(op', z, End);
    var all := More(op, y, rest);
    assert RestTokens(End) == [] && RestTokens(rest) == [TOp(op')] + Tokens(z) && RestTokens(all) == [TOp(op)] + Tokens(y) + RestTokens(rest);
    assert RestLvaluesOk(End) && RestDeclared(End, |env|);
    assert RestLvaluesOk(rest) && RestDeclared(rest, |env|);
    assert RestLvaluesOk(all) && RestDeclared(all, |env|);
  }

  /** x op y op' z, both operators of one level. */
  lemma Triple(x: Expr, op: Op, y: Expr, op': Op, z: Expr, env: seq<Word>)
    requires Ok(x, env) && Ok(y, env) && Ok(z, env)
    ensures
      var e := Chain(x, More(op, y, More(op', z, End)));
      Ok(e, env) && Eval(e, env) == Eval(Pair(Paren(Pair(x, op, y)), op', z), env)
  {
    hide Pair, Arith;
    TripleText(x, op, y, op', z, env);
    var l := Eval(x, env);
    var one := Applied(l.0, op, y, l.1);
    PairEval(x, op, y, env);
    ParenOk(Pair(x, op, y), env);
    PairEval(Paren(Pair(x, op, y)), op', z, env);
    OneRest(op', z, one.0, one.1);
    Unrolled(x, op, y, More(op', z, End), env);
  }

  lemma OneRest(op: Op, z: Expr, acc: Word, env: seq<Word>)
    requires Ok(z, env)
    ensures RestLvaluesOk(More(op, z, End)) && RestDeclared(More(op, z, End), |env|)
    ensures EvalRest(acc, More(op, z, End), env) == Applied(acc, op, z, env)
  {
    assert RestLvaluesOk(End) && RestDeclared(End, |env|);
    assert forall a: Word, n: seq<Word> :: EvalRest(a, End, n) == (a, n);
  }

  lemma Unrolled(x: Expr, op: Op, y: Expr, rest: Rest, env: seq<Word>)
    requires Ok(x, env) && Ok(y, env) && RestLvaluesOk(rest) && RestDeclared(rest, |env|)
    ensures var e := Chain(x, More(op, y, rest));
      && Ok(e, env)
      && var l := Eval(x, env); var one := Applied(l.0, op, y, l.1); Eval(e, env) == EvalRest(one.0, rest, one.1)
  {
    hide Arith;
    assert RestLvaluesOk(More(op, y, rest)) && RestDeclared(More(op, y, rest), |env|);
  }

  /** Of two operators the one in the earlier row is applied first, and of two in one row the left one: the text
      means what it means with parentheses there.  Operands are numbers, variables, parentheses and their unary
      forms. */
  lemma Precedence(x: Expr, op: Op, y: Expr, op': Op, z: Expr, i: nat, j: nat, e: Expr, env: seq<Word>)
    requires Fits(x, 11) && Fits(y, 11) && Fits(z, 11) && InRow(op, i) && InRow(op', j)
    requires Fits(e, 0) && Tokens(e) == Tokens(x) + [TOp(op)] + Tokens(y) + [TOp(op')] + Tokens(z)
    requires Ok(x, env) && Ok(y, env) && Ok(z, env)
    ensures Ok(e, env) && Ok(Paren(Pair(y, op', z)), env) && Ok(Paren(Pair(x, op, y)), env)
    ensures j < i ==> Eval(e, env) == Eval(Pair(x, op, Paren(Pair(y, op', z))), env)
    ensures j >= i ==> Eval(e, env) == Eval(Pair(Paren(Pair(x, op, y)), op', z), env)
  {
    hide Level, Eval, Tokens, Fits, LvaluesOk, Declared, Pair, InRow;
    RowLevel(op, i);
    RowLevel(op', j);
    ParenOk(Pair(y, op', z), env);
    ParenOk(Pair(x, op, y), env);
    if j < i {
      PairFits(y, op', z, Level(op') + 1);
      PairFits(x, op, Pair(y, op', z), Level(op) + 1);
      Unambiguous(e, Pair(x, op, Pair(y, op', z)));
      SameOperand(x, op, Pair(y, op', z), Paren(Pair(y, op', z)), env);
    } else if j == i {
      TripleFits(x, op, y, op', z);
      TripleText(x, op, y, op', z, env);
      Triple(x, op, y, op', z, env);
      Unambiguous(e, Chain(x, More(op, y, More(op', z, End))));
    } else {
      PairFits(x, op, y, Level(op) + 1);
      PairFits(Pair(x, op, y), op', z, Level(op') + 1);
      Unambiguous(e, Pair(Pair(x, op, y), op', z));
      SameLeft(Pair(x, op, y), Paren(Pair(x, op, y)), op', z, env);
    }
  }

  lemma ParenOk(x: Expr, env: seq<Word>)
    requires Ok(x, env)
    ensures Ok(Paren(x), env) && Eval(Paren(x), env) == Eval(x, env)
  {
  }

  lemma SameOperand(x: Expr, op: Op, y: Expr, z: Expr, env: seq<Word>)
    requires Ok(x, env) && Ok(y, env) && Ok(z, env) && z == Paren(y)
    ensures Eval(Pair(x, op, y), env) == Eval(Pair(x, op, z), env)
  {
    PairEval(x, op, y, env);
    PairEval(x, op, z, env);
    ParenOk(y, Eval(x, env).1);
  }

  lemma SameLeft(x: Expr, z: Expr, op: Op, y: Expr, env: seq<Word>)
    requires Ok(x, env) && Ok(y, env) && Ok(z, env) && z == Paren(x)
    ensures Eval(Pair(x, op, y), env) == Eval(Pair(z, op, y), env)
  {
    PairEval(x, op, y, env);
    PairEval(z, op, y, env);
    ParenOk(x, env);
  }

  /** Where operands of a level above the operator's may stand. */
  lemma PairFits(x: Expr, op: Op, y: Expr, level: nat)
    requires level == Level(op) + 1 && (Fits(x, level) || Fits(x, 11)) && (Fits(y, level) || Fits(y, 11))
    ensures forall k :: 0 <= k <= Level(op) ==> Fits(Pair(x, op, y), k)
  {
    if Fits(x, 11) {
      Lower(x, level);
    }
    if Fits(y, 11) {
      Lower(y, level);
    }
    assert RestFits(End, Level(op));
  }

  lemma Lower(x: Expr, level: nat)
    requires level <= 11 && Fits(x, 11)
    ensures Fits(x, level)
  {
  }

  lemma TripleFits(x: Expr, op: Op, y: Expr, op': Op, z: Expr)
    requires Fits(x, 11) && Fits(y, 11) && Fits(z, 11) && Level(op) == Level(op')
    ensures Fits(Chain(x, More(op, y, More(op', z, End))), 0)
  {
    Lower(x, Level(op) + 1);
    Lower(y, Level(op) + 1);
    Lower(z, Level(op) + 1);
    assert RestFits(End, Level(op)) && RestFits(More(op', z, End), Level(op));
  }

  /** One operator: the left operand is evaluated first, and && and || need the right one only if the left one does
      not decide. */
  lemma PairMeans(x: Expr, op: Op, y: Expr, env: seq<Word>)
    requires Ok(x, env) && Ok(y, env)
    ensures
      var l := Eval(x, env);
      var r, v := Eval(y, l.1), Eval(Pair(x, op, y), env);
      if (op.LogAnd? && l.0 == 0) || (op.LogOr? && l.0 != 0)
      then v.0 == (if op.LogOr? then 1 else 0) && v.1 == l.1
      else Means(op, l.0, r.0, v.0) && v.1 == r.1
  {
    hide Means, Arith, Eval, Pair;
    PairEval(x, op, y, env);
    var l := Eval(x, env);
    var r := Eval(y, l.1);
    ArithMeans(op, l.0, r.0);
  }

  /** A minus, ~ or ! in front of an operand. */
  lemma UnaryText(e: Expr, t: Token, x: Expr, env: seq<Word>)
    requires Fits(e, 0) && Fits(x, 11) && Ok(x, env) && t in [TOp(Sub), Tilde, Bang] && Tokens(e) == [t] + Tokens(x)
    ensures Ok(e, env) && Eval(e, env).1 == Eval(x, env).1
    ensures UnaryMeans(if t == Tilde then Com else if t == Bang then Not else Neg, Eval(x, env).0, Eval(e, env).0)
  {
    hide UnaryMeans, UnaryValue;
    var u := if t == Tilde then Com else if t == Bang then Not else Neg;
    Unambiguous(e, Un(u, x));
    UnaryValueMeans(u, Eval(x, env).0);
  }

  /** An assignment takes everything to its right, stores it, and has it as value. */
  lemma AssignText(e: Expr, v: nat, f: Expr, env: seq<Word>)
    requires Fits(e, 0) && Fits(f, 0) && Ok(f, env) && v < |env| && Tokens(e) == [TId(v), Equals] + Tokens(f)
    ensures Ok(e, env) && Eval(e, env).0 == Eval(f, env).0
    ensures forall w :: 0 <= w < |env| ==> Eval(e, env).1[w] == if w == v then Eval(f, env).0 else Eval(f, env).1[w]
  {
    hide Eval, Tokens, Fits;
    AssignIs(e, v, f);
    AssignEval(v, f, env);
  }

  lemma AssignIs(e: Expr, v: nat, f: Expr)
    requires Fits(e, 0) && Fits(f, 0) && Tokens(e) == [TId(v), Equals] + Tokens(f)
    ensures e == Assign(Var(v), f)
  {
    assert Tokens(Assign(Var(v), f)) == [TId(v), Equals] + Tokens(f);
    Unambiguous(e, Assign(Var(v), f));
  }

  lemma AssignEval(v: nat, f: Expr, env: seq<Word>)
    requires Ok(f, env) && v < |env|
    ensures Ok(Assign(Var(v), f), env)
    ensures var r := Eval(f, env); Eval(Assign(Var(v), f), env) == (r.0, r.1[v := r.0])
  {
  }

  lemma OpAssignEval(v: nat, op: Op, f: Expr, env: seq<Word>)
    requires Ok(f, env) && v < |env| && Assignable(op)
    ensures Ok(OpAssign(Var(v), op, f), env)
    ensures
      var r := Eval(f, env);
      var value := Arith(op, env[v], r.0);
      Eval(OpAssign(Var(v), op, f), env) == (value, r.1[v := value])
  {
    hide Arith;
    assert IsLvalue(Var(v)) && Target(Var(v)) == v && Declared(Var(v), |env|);
    assert LvaluesOk(OpAssign(Var(v), op, f)) && Declared(OpAssign(Var(v), op, f), |env|);
  }

  /** The operators that have an assignment form. */
  const ASSIGNING: seq<Op> := [Or, Xor, And, Shr, Shl, Add, Sub, Mul, Div, Mod]

  lemma AssignForms(op: Op)
    ensures Assignable(op) <==> op in ASSIGNING
  {
    if Assignable(op) {
      assert ASSIGNING[0] == Or && ASSIGNING[1] == Xor && ASSIGNING[2] == And && ASSIGNING[3] == Shr && ASSIGNING[4] == Shl;
      assert ASSIGNING[5] == Add && ASSIGNING[6] == Sub && ASSIGNING[7] == Mul && ASSIGNING[8] == Div && ASSIGNING[9] == Mod;
    }
  }

  /** v op= f is v = v op (f). */
  lemma OpAssignText(e: Expr, v: nat, op: Op, f: Expr, env: seq<Word>)
    requires Fits(e, 0) && Fits(f, 0) && Ok(f, env) && v < |env| && op in ASSIGNING
    requires Tokens(e) == [TId(v), OpEquals(op)] + Tokens(f)
    ensures Ok(e, env) && Ok(Assign(Var(v), Pair(Var(v), op, Paren(f))), env)
    ensures Eval(e, env) == Eval(Assign(Var(v), Pair(Var(v), op, Paren(f))), env)
  {
    hide Arith, Pair;
    AssignForms(op);
    OpAssignIs(e, v, op, f);
    ParenOk(f, env);
    PairEval(Var(v), op, Paren(f), env);
    VarOk(v, env);
  }

  lemma VarOk(v: nat, env: seq<Word>)
    requires v < |env|
    ensures Ok(Var(v), env) && Eval(Var(v), env) == (env[v], env)
  {
  }

  lemma OpAssignIs(e: Expr, v: nat, op: Op, f: Expr)
    requires Fits(e, 0) && Fits(f, 0) && Assignable(op) && Tokens(e) == [TId(v), OpEquals(op)] + Tokens(f)
    ensures e == OpAssign(Var(v), op, f)
  {
    assert Tokens(OpAssign(Var(v), op, f)) == [TId(v), OpEquals(op)] + Tokens(f);
    Unambiguous(e, OpAssign(Var(v), op, f));
  }
}
