/** The one-pass compiler itself: the hier functions of Applications/SmallC/expr.c with primary.c, gen.c and
    code8080.c, reading tokens, tracking stkp and emitting code as they go. */
module SmallCCompiler {
  import opened Expressions
  import opened Machine8080
  import opened SmallC
  import opened SmallCRuns

  /** LVALUE: symbol is 0 (here -1) for a constant, indirect is 0 unless the address is in a register. */
  datatype Lval = Lval(symbol: int, indirect: bool)

  const NO_SYMBOL: int := -1

  /** toks stands in input at pos. */
  predicate At(input: seq<Token>, pos: nat, toks: seq<Token>) {
    pos + |toks| <= |input| && input[pos..pos + |toks|] == toks
  }

  function TokenAt(input: seq<Token>, pos: nat): Token {
    if pos < |input| then input[pos] else Stop
  }

  /** A token that cannot continue an expression of this level. */
  predicate Ends(t: Token, level: nat) {
    (t.TOp? ==> Level(t.op) < level) && (level == 0 ==> !t.Equals? && !t.OpEquals?)
  }

  /** What the caller of a hier function owes it: e ahead, and nothing behind it that would be part of it. */
  ghost predicate Ahead(input: seq<Token>, pos: nat, e: Expr, level: nat, vars: nat) {
    && Fits(e, level) && Declared(e, vars)
    && At(input, pos, Tokens(e)) && Ends(TokenAt(input, pos + |Tokens(e)|), level)
  }

  ghost predicate RestAhead(input: seq<Token>, pos: nat, rest: Rest, level: nat, vars: nat) {
    && RestFits(rest, level) && RestDeclared(rest, vars)
    && At(input, pos, RestTokens(rest)) && Ends(TokenAt(input, pos + |RestTokens(rest)|), level)
  }

  lemma AtSplit(input: seq<Token>, pos: nat, a: seq<Token>, b: seq<Token>)
    requires At(input, pos, a + b)
    ensures At(input, pos, a) && At(input, pos + |a|, b) && (a != [] ==> TokenAt(input, pos) == a[0])
    ensures b != [] ==> TokenAt(input, pos + |a|) == b[0]
  {
    var s := input[pos..pos + |a + b|];
    assert s[..|a|] == a && s[|a|..] == b;
    assert a != [] ==> s[0] == a[0];
    assert b != [] ==> s[|a|] == b[0];
  }

  /** A chain of this level: its first operand is ahead, then the rest of it. */
  lemma ChainAhead(input: seq<Token>, pos: nat, e: Expr, level: nat, vars: nat)
    requires Ahead(input, pos, e, level, vars) && e.Chain? && Level(e.rest.op) == level
    ensures Ahead(input, pos, e.first, level + 1, vars) && RestAhead(input, pos + |Tokens(e.first)|, e.rest, level, vars)
    ensures e.rest.More? && TokenAt(input, pos + |Tokens(e.first)|) == TOp(e.rest.op)
  {
    AtSplit(input, pos, Tokens(e.first), RestTokens(e.rest));
  }

  /** Anything else of this level is of the next level too. */
  lemma HigherAhead(input: seq<Token>, pos: nat, e: Expr, level: nat, vars: nat)
    requires Ahead(input, pos, e, level, vars) && 1 <= level <= 10 && !(e.Chain? && Level(e.rest.op) == level)
    ensures Ahead(input, pos, e, level + 1, vars)
  {
  }

  lemma MoreTokens(rest: Rest)
    requires rest.More?
    ensures RestTokens(rest) == [TOp(rest.op)] + (Tokens(rest.e) + RestTokens(rest.rest))
    ensures rest.rest.End? ==> RestTokens(rest.rest) == []
    ensures rest.rest.More? ==> RestTokens(rest.rest) != [] && RestTokens(rest.rest)[0] == TOp(rest.rest.op)
  {
    var more := rest.rest;
    if more.More? {
      assert RestTokens(more) == [TOp(more.op)] + Tokens(more.e) + RestTokens(more.rest);
    }
  }

  lemma MoreFits(rest: Rest, level: nat, vars: nat)
    requires rest.More? && RestFits(rest, level) && RestDeclared(rest, vars)
    ensures Level(rest.op) == level && Fits(rest.e, level + 1) && RestFits(rest.rest, level)
    ensures Declared(rest.e, vars) && RestDeclared(rest.rest, vars)
    ensures rest.rest.More? ==> Ends(TOp(rest.rest.op), level + 1)
  {
  }

  /** One operator of the chain and its operand are ahead, then the rest. */
  lemma RestAheadStep(input: seq<Token>, pos: nat, rest: Rest, level: nat, vars: nat)
    requires RestAhead(input, pos, rest, level, vars)
    ensures rest.End? ==> Ends(TokenAt(input, pos), level) && |RestTokens(rest)| == 0
    ensures rest.More? ==> TokenAt(input, pos) == TOp(rest.op) && Level(rest.op) == level && pos < |input|
    ensures rest.More? ==> Ahead(input, pos + 1, rest.e, level + 1, vars)
    ensures rest.More? ==> RestAhead(input, pos + 1 + |Tokens(rest.e)|, rest.rest, level, vars)
    ensures rest.More? ==> |RestTokens(rest)| == 1 + |Tokens(rest.e)| + |RestTokens(rest.rest)|
  {
    if rest.More? {
      MoreAhead(input, pos, rest, level, vars);
    }
  }

  lemma MoreAhead(input: seq<Token>, pos: nat, rest: Rest, level: nat, vars: nat)
    requires RestAhead(input, pos, rest, level, vars) && rest.More?
    ensures TokenAt(input, pos) == TOp(rest.op) && Level(rest.op) == level && pos < |input|
    ensures Ahead(input, pos + 1, rest.e, level + 1, vars)
    ensures RestAhead(input, pos + 1 + |Tokens(rest.e)|, rest.rest, level, vars)
    ensures |RestTokens(rest)| == 1 + |Tokens(rest.e)| + |RestTokens(rest.rest)|
  {
    hide Tokens, RestTokens, Fits, RestFits, Declared, RestDeclared, At;
    MoreTokens(rest);
    MoreFits(rest, level, vars);
    var more := RestTokens(rest.rest);
    AtSplit(input, pos, [TOp(rest.op)], Tokens(rest.e) + more);
    AtSplit(input, pos + 1, Tokens(rest.e), more);
    assert pos + 1 + |Tokens(rest.e)| + |more| == pos + |RestTokens(rest)|;
  }

  /** The LVALUE of a variable. */
  function LvalOf(syms: Symbols, v: nat): Lval
    requires v < |syms|
  {
    Lval(v, syms[v].Auto?)
  }

  /** What a hier function has emitted for e: with k set, the address of a variable still to be fetched. */
  ghost predicate Emitted(syms: Symbols, e: Expr, k: bool, lval: Lval, stkp: int, lab: nat, before: seq<Instr>, after: seq<Instr>)
    requires LvaluesOk(e) && Declared(e, |syms|)
  {
    if k then
      IsLvalue(e) && Target(e) < |syms| && lval == LvalOf(syms, Target(e)) && after == before + Address(syms[Target(e)], stkp)
    else
      after == before + Value(syms, e, stkp, lab)
  }

  /** The value of a variable is its address fetched. */
  lemma {:induction false} LvalueCode(syms: Symbols, e: Expr, stkp: int, lab: nat)
    requires IsLvalue(e) && Declared(e, |syms|)
    ensures LvaluesOk(e) && Target(e) < |syms| && Labels(e) == 0
    ensures Value(syms, e, stkp, lab) == Address(syms[Target(e)], stkp) + Fetch(syms[Target(e)])
  {
    if e.Paren? {
      LvalueCode(syms, e.e, stkp, lab);
    }
  }

  class Compiler {
    const input: seq<Token>
    const syms: Symbols
    var pos: nat
    var out: seq<Instr>
    /** Where SP will be at run time, counted from the frame. */
    var stkp: int
    var nxtlab: nat

    constructor (input: seq<Token>, syms: Symbols, stkp: int, nxtlab: nat)
      ensures this.input == input && this.syms == syms && this.stkp == stkp && this.nxtlab == nxtlab
      ensures pos == 0 && out == []
    {
      this.input, this.syms, this.stkp, this.nxtlab := input, syms, stkp, nxtlab;
      pos, out := 0, [];
    }

    method GenPush()
      modifies this`out, this`stkp
      ensures out == old(out) + [PushH] && stkp == old(stkp) - 2
    {
      out := out + [PushH];
      stkp := stkp - 2;
    }

    method GenPop()
      modifies this`out, this`stkp
      ensures out == old(out) + [PopD] && stkp == old(stkp) + 2
    {
      out := out + [PopD];
      stkp := stkp + 2;
    }

    /** gen_add, gen_sub and the rest */
    method GenOp(op: Op)
      modifies this`out, this`stkp
      ensures out == old(out) + OpCode(op) && stkp == old(stkp) + 2
    {
      GenPop();
      match op {
        case Add => out := out + [DadD];
        case Div => out := out + [Call(CcDiv)];
        case Mod => out := out + [Call(CcDiv)]; out := out + [Xchg];
        case _ => out := out + [Call(CcArith(op))];
      }
    }

    method GetLabel() returns (lab: nat)
      modifies this`nxtlab
      ensures lab == old(nxtlab) && nxtlab == lab + 1
    {
      lab := nxtlab;
      nxtlab := nxtlab + 1;
    }

    method GenTestJump(lab: nat, ft: bool)
      modifies this`out
      ensures out == old(out) + TestJump(lab, ft)
    {
      out := out + [MovAH];
      out := out + [OraL];
      if ft {
        out := out + [Jnz(lab)];
      } else {
        out := out + [Jz(lab)];
      }
    }

    /** rvalue */
    method Rvalue(lval: Lval)
      requires 0 <= lval.symbol < |syms| && lval == LvalOf(syms, lval.symbol)
      modifies this`out
      ensures out == old(out) + Fetch(syms[lval.symbol])
    {
      if lval.symbol != NO_SYMBOL && !lval.indirect {
        out := out + [Lhld(syms[lval.symbol].address)];
      } else {
        out := out + [Call(CcGint)];
      }
    }

    method Store(lval: Lval)
      requires 0 <= lval.symbol < |syms| && lval == LvalOf(syms, lval.symbol)
      modifies this`out, this`stkp
      ensures out == old(out) + StoreTo(syms[lval.symbol]) && stkp == old(stkp) + Saved(syms[lval.symbol])
    {
      if !lval.indirect {
        out := out + [Shld(syms[lval.symbol].address)];
      } else {
        GenPop();
        out := out + [Call(CcPint)];
      }
    }

    /** rvalue where the caller wants a value: fetch what is still an address. */
    method Force(k: bool, lval: Lval, ghost e: Expr, ghost before: seq<Instr>, ghost lab: nat)
      requires LvaluesOk(e) && Declared(e, |syms|) && Emitted(syms, e, k, lval, stkp, lab, before, out)
      modifies this`out
      ensures out == before + Value(syms, e, stkp, lab)
    {
      hide Value;
      if k {
        LvalueCode(syms, e, stkp, lab);
        Rvalue(lval);
      }
    }

    /** hier11 and primary: a parenthesised expression, a variable or a constant. */
    method Primary(ghost e: Expr) returns (k: bool, lval: Lval, err: bool)
      requires Ahead(input, pos, e, 12, |syms|)
      modifies this`pos, this`out, this`stkp, this`nxtlab
      ensures err <==> !LvaluesOk(e)
      ensures !err ==> pos == old(pos) + |Tokens(e)| && stkp == old(stkp) && nxtlab == old(nxtlab) + Labels(e)
      ensures !err ==> Emitted(syms, e, k, lval, stkp, old(nxtlab), old(out), out)
      ensures !err && IsLvalue(e) ==> k
      decreases e, 1
    {
      assert TokenAt(input, pos) == Tokens(e)[0] by { AtSplit(input, pos, Tokens(e), []); assert Tokens(e) + [] == Tokens(e); }
      err := false;
      if input[pos].LParen? {
        ParenAhead(input, pos, e, |syms|);
        pos := pos + 1;
        k, lval, err := Hier1(e.e);
        if !err {
          pos := pos + 1;
        }
      } else if input[pos].TId? {
        var v := input[pos].v;
        pos := pos + 1;
        match syms[v] {
          case Auto(offset) =>
            out := out + [LxiH((offset - stkp) % 65536)];
            out := out + [DadSp];
            lval := Lval(v, true);
          case Static(_) =>
            lval := Lval(v, false);
        }
        k := true;
      } else {
        lval := Lval(NO_SYMBOL, false);
        out := out + [LxiH(input[pos].n)];
        pos := pos + 1;
        k := false;
      }
    }

    method Hier10(ghost e: Expr) returns (k: bool, lval: Lval, err: bool)
      requires Ahead(input, pos, e, 11, |syms|)
      modifies this`pos, this`out, this`stkp, this`nxtlab
      ensures err <==> !LvaluesOk(e)
      ensures !err ==> pos == old(pos) + |Tokens(e)| && stkp == old(stkp) && nxtlab == old(nxtlab) + Labels(e)
      ensures !err ==> Emitted(syms, e, k, lval, stkp, old(nxtlab), old(out), out)
      ensures !err && IsLvalue(e) ==> k
      decreases e, 2
    {
      assert TokenAt(input, pos) == Tokens(e)[0] by { AtSplit(input, pos, Tokens(e), []); assert Tokens(e) + [] == Tokens(e); }
      if input[pos] == TOp(Sub) {
        k, lval, err := Prefix(Neg, e);
      } else if input[pos] == Tilde {
        k, lval, err := Prefix(Com, e);
      } else if input[pos] == Bang {
        k, lval, err := Prefix(Not, e);
      } else {
        k, lval, err := Primary(e);
      }
    }

    /** The three unary branches of hier10. */
    method Prefix(u: Unary, ghost e: Expr) returns (k: bool, lval: Lval, err: bool)
      requires Ahead(input, pos, e, 11, |syms|) && e.Un? && e.u == u
      modifies this`pos, this`out, this`stkp, this`nxtlab
      ensures err <==> !LvaluesOk(e)
      ensures !err ==> pos == old(pos) + |Tokens(e)| && stkp == old(stkp) && nxtlab == old(nxtlab) + Labels(e)
      ensures !err ==> !k && Emitted(syms, e, k, lval, stkp, old(nxtlab), old(out), out)
      decreases e, 0
    {
      AtSplit(input, pos, [UnaryToken(u)], Tokens(e.e));
      ghost var out0 := out;
      pos := pos + 1;
      k, lval, err := Hier10(e.e);
      if err {
        return;
      }
      Force(k, lval, e.e, out0, old(nxtlab));
      out := out + [Call(CcUnary(u))];
      k := false;
    }

    /** hier1b, hier1c and hier2 to hier9, which differ only in their operators and in the level they call. */
    method HierN(level: nat, ghost e: Expr) returns (k: bool, lval: Lval, err: bool)
      requires 1 <= level <= 10 && Ahead(input, pos, e, level, |syms|)
      modifies this`pos, this`out, this`stkp, this`nxtlab
      ensures err <==> !LvaluesOk(e)
      ensures !err ==> pos == old(pos) + |Tokens(e)| && stkp == old(stkp) && nxtlab == old(nxtlab) + Labels(e)
      ensures !err ==> Emitted(syms, e, k, lval, stkp, old(nxtlab), old(out), out)
      ensures !err && IsLvalue(e) && TokenAt(input, pos) != TOp(LogAnd) ==> k
      decreases e, 20 - level
    {
      hide Ahead, RestAhead, Value, RestValue, StepCode, Tokens, RestTokens, Fits, RestFits, Level, Labels, RestLabels, StepLabels,
           LvaluesOk, RestLvaluesOk, Declared, RestDeclared;
      ghost var first, todo := First(e, level), Tail(e, level);
      SplitAhead(input, pos, e, level, |syms|);
      SplitFacts(e, level);
      ghost var full := if LvaluesOk(e) then out + Value(syms, e, stkp, nxtlab) else [];
      if LvaluesOk(e) {
        SplitValue(syms, e, level, stkp, nxtlab, out);
      }
      k, lval, err := Operand(level, first);
      if err {
        return;
      }
      RestAheadStep(input, pos, todo, level, |syms|);
      if !AtLevel(TokenAt(input, pos), level, true) {
        return;
      }
      Force(k, lval, first, old(out), old(nxtlab));
      k := false;
      while AtLevel(TokenAt(input, pos), level, false)
        invariant !err && !k && stkp == old(stkp) && RestAhead(input, pos, todo, level, |syms|)
        invariant pos + |RestTokens(todo)| == old(pos) + |Tokens(e)|
        invariant LvaluesOk(e) <==> RestLvaluesOk(todo)
        invariant RestDeclared(todo, |syms|)
        invariant nxtlab + RestLabels(todo) == old(nxtlab) + Labels(e)
        invariant RestLvaluesOk(todo) ==> out + RestValue(syms, todo, stkp, nxtlab) == full
        invariant todo.More? ==> (e decreases to todo)
        decreases todo
      {
        RestAheadStep(input, pos, todo, level, |syms|);
        RestFacts(todo, |syms|);
        if RestLvaluesOk(todo) {
          StepValue(syms, todo, stkp, nxtlab, out);
        }
        var op := input[pos].op;
        pos := pos + 1;
        err := Step(level, op, todo.e);
        if err {
          return;
        }
        todo := todo.rest;
      }
      RestAheadStep(input, pos, todo, level, |syms|);
      NoMore(syms, stkp, nxtlab, out);
    }

    /** The operand that hier1b to hier9 read: an expression of the next level. */
    method Operand(level: nat, ghost e: Expr) returns (k: bool, lval: Lval, err: bool)
      requires 1 <= level <= 10 && Ahead(input, pos, e, level + 1, |syms|)
      modifies this`pos, this`out, this`stkp, this`nxtlab
      ensures err <==> !LvaluesOk(e)
      ensures !err ==> pos == old(pos) + |Tokens(e)| && stkp == old(stkp) && nxtlab == old(nxtlab) + Labels(e)
      ensures !err ==> Emitted(syms, e, k, lval, stkp, old(nxtlab), old(out), out)
      ensures !err && IsLvalue(e) && TokenAt(input, pos) != TOp(LogAnd) ==> k
      decreases e, 20 - level, 0
    {
      if level < 10 {
        k, lval, err := HierN(level + 1, e);
      } else {
        k, lval, err := Hier10(e);
      }
    }

    /** An operand whose value is wanted. */
    method Wanted(level: nat, ghost e: Expr) returns (err: bool)
      requires 1 <= level <= 10 && Ahead(input, pos, e, level + 1, |syms|)
      modifies this`pos, this`out, this`stkp, this`nxtlab
      ensures err <==> !LvaluesOk(e)
      ensures !err ==> pos == old(pos) + |Tokens(e)| && stkp == old(stkp) && nxtlab == old(nxtlab) + Labels(e)
      ensures !err ==> Declared(e, |syms|) && out == old(out) + Value(syms, e, stkp, old(nxtlab))
      decreases e, 20 - level, 1
    {
      hide Value, Emitted, Fits;
      var k, lval;
      k, lval, err := Operand(level, e);
      if !err {
        Force(k, lval, e, old(out), old(nxtlab));
      }
    }

    /** The body of their loops, once the operator is read. */
    method Step(level: nat, op: Op, ghost e: Expr) returns (err: bool)
      requires 1 <= level <= 10 && Ahead(input, pos, e, level + 1, |syms|)
      modifies this`pos, this`out, this`stkp, this`nxtlab
      ensures err <==> !LvaluesOk(e)
      ensures !err ==> pos == old(pos) + |Tokens(e)| && stkp == old(stkp) && nxtlab == old(nxtlab) + StepLabels(op, e)
      ensures !err ==> Declared(e, |syms|) && out == old(out) + StepCode(syms, op, e, stkp, old(nxtlab))
      decreases e, 20 - level, 2
    {
      hide Ahead, Value, Tokens, Labels, LvaluesOk, Declared, OpCode, TestJump;
      ghost var out0, lab0 := out, nxtlab;
      if op == LogOr || op == LogAnd {
        var lab := GetLabel();
        GenTestJump(lab, op == LogOr);
        err := Wanted(level, e);
        if !err {
          out := out + [Label(lab)];
          out := out + [Call(CcBool)];
          ghost var v := Value(syms, e, stkp, lab + 1);
          assert out == out0 + (TestJump(lab, op.LogOr?) + v + [Label(lab), Call(CcBool)]);
        }
      } else {
        GenPush();
        err := Wanted(level, e);
        if !err {
          ghost var v := Value(syms, e, stkp, lab0);
          GenOp(op);
          assert out == out0 + ([PushH] + v + OpCode(op));
        }
      }
    }

    /** hier1: assignment, which groups to the right. */
    method Hier1(ghost e: Expr) returns (k: bool, lval: Lval, err: bool)
      requires Ahead(input, pos, e, 0, |syms|)
      modifies this`pos, this`out, this`stkp, this`nxtlab
      ensures err <==> !LvaluesOk(e)
      ensures !err ==> pos == old(pos) + |Tokens(e)| && stkp == old(stkp) && nxtlab == old(nxtlab) + Labels(e)
      ensures !err ==> Emitted(syms, e, k, lval, stkp, old(nxtlab), old(out), out)
      ensures !err && IsLvalue(e) && TokenAt(input, pos) != TOp(LogAnd) ==> k
      decreases e, 30
    {
      hide Ahead, Value, Tokens, Labels, Fits, Target, AssignCode, OpAssignCode;
      ghost var lhs := if IsAssign(e) then e.lhs else e;
      AssignAhead(input, pos, e, |syms|);
      AssignFacts(input, pos, e, |syms|);
      k, lval, err := HierN(1, lhs);
      if err {
        return;
      }
      var t := TokenAt(input, pos);
      if t == Equals {
        if !k {
          // needlval
          err := true;
          return;
        }
        pos := pos + 1;
        err := AssignTo(lval, e, old(out));
        if !err {
          AssignValue(syms, e, stkp, old(nxtlab));
        }
        k := false;
      } else if t.OpEquals? {
        if !k {
          err := true;
          return;
        }
        pos := pos + 1;
        err := OpAssignTo(lval, t.op, e, old(out));
        if !err {
          AssignValue(syms, e, stkp, old(nxtlab));
        }
        k := false;
      }
    }

    /** A whole right operand of an assignment, as a value. */
    method RightSide(ghost e: Expr) returns (err: bool)
      requires Ahead(input, pos, e, 0, |syms|)
      modifies this`pos, this`out, this`stkp, this`nxtlab
      ensures err <==> !LvaluesOk(e)
      ensures !err ==> pos == old(pos) + |Tokens(e)| && stkp == old(stkp) && nxtlab == old(nxtlab) + Labels(e)
      ensures !err ==> Declared(e, |syms|) && out == old(out) + Value(syms, e, stkp, old(nxtlab))
      decreases e, 31
    {
      hide Value, Emitted, Fits;
      var k, lval;
      k, lval, err := Hier1(e);
      if !err {
        Force(k, lval, e, old(out), old(nxtlab));
      }
    }

    /** hier1 behind "=". */
    method AssignTo(lval: Lval, ghost e: Expr, ghost before: seq<Instr>) returns (err: bool)
      requires e.Assign? && Ahead(input, pos, e.rhs, 0, |syms|) && IsLvalue(e.lhs) && Target(e.lhs) < |syms|
      requires lval == LvalOf(syms, Target(e.lhs)) && out == before + Address(syms[Target(e.lhs)], stkp)
      modifies this`pos, this`out, this`stkp, this`nxtlab
      ensures err <==> !LvaluesOk(e.rhs)
      ensures !err ==> pos == old(pos) + |Tokens(e.rhs)| && stkp == old(stkp) && nxtlab == old(nxtlab) + Labels(e.rhs)
      ensures
        var s := syms[Target(e.lhs)];
        !err ==> Declared(e.rhs, |syms|) && out == before + AssignCode(s, stkp, Value(syms, e.rhs, stkp - Saved(s), old(nxtlab)))
      decreases e, 0
    {
      hide Ahead, Value, Tokens, Labels, LvaluesOk, Declared, Address, Fetch, StoreTo;
      ghost var s, stkp0, lab0 := syms[Target(e.lhs)], stkp, nxtlab;
      if lval.indirect {
        GenPush();
      }
      assert out == before + Address(s, stkp0) + Save(s);
      err := RightSide(e.rhs);
      if err {
        return;
      }
      ghost var v := Value(syms, e.rhs, stkp0 - Saved(s), lab0);
      Store(lval);
      assert out == before + (Address(s, stkp0) + Save(s) + v + StoreTo(s));
    }

    /** hier1 behind an op=. */
    method OpAssignTo(lval: Lval, op: Op, ghost e: Expr, ghost before: seq<Instr>) returns (err: bool)
      requires e.OpAssign? && e.op == op && Ahead(input, pos, e.rhs, 0, |syms|) && IsLvalue(e.lhs) && Target(e.lhs) < |syms|
      requires lval == LvalOf(syms, Target(e.lhs)) && out == before + Address(syms[Target(e.lhs)], stkp)
      modifies this`pos, this`out, this`stkp, this`nxtlab
      ensures err <==> !LvaluesOk(e.rhs)
      ensures !err ==> pos == old(pos) + |Tokens(e.rhs)| && stkp == old(stkp) && nxtlab == old(nxtlab) + Labels(e.rhs)
      ensures
        var s := syms[Target(e.lhs)];
        !err ==> Declared(e.rhs, |syms|) && out == before + OpAssignCode(s, stkp, op, Value(syms, e.rhs, stkp - Saved(s) - 2, old(nxtlab)))
      decreases e, 0
    {
      hide Ahead, Value, Tokens, Labels, LvaluesOk, Declared, Address, Fetch, StoreTo, OpCode;
      ghost var s, stkp0, lab0 := syms[Target(e.lhs)], stkp, nxtlab;
      if lval.indirect {
        GenPush();
      }
      assert out == before + Address(s, stkp0) + Save(s);
      Rvalue(lval);
      GenPush();
      err := RightSide(e.rhs);
      if err {
        return;
      }
      ghost var v := Value(syms, e.rhs, stkp0 - Saved(s) - 2, lab0);
      GenOp(op);
      Store(lval);
      assert out == before + (Address(s, stkp0) + Save(s) + Fetch(s) + [PushH] + v + (OpCode(op) + StoreTo(s)));
    }

    /** expression */
    method Expression(ghost e: Expr) returns (err: bool)
      requires Ahead(input, pos, e, 0, |syms|)
      modifies this`pos, this`out, this`stkp, this`nxtlab
      ensures err <==> !LvaluesOk(e)
      ensures !err ==> pos == old(pos) + |Tokens(e)| && stkp == old(stkp) && nxtlab == old(nxtlab) + Labels(e)
      ensures !err ==> Declared(e, |syms|) && out == old(out) + Value(syms, e, stkp, old(nxtlab))
    {
      err := RightSide(e);
    }
  }

  /** The whole way from source tokens to a run: the expression compiles unless it assigns to something other
      than a variable, and then its code computes it on every machine, whatever the library leaves in de and below
      the stack pointer. */
  method Compile(e: Expr, syms: Symbols, stkp: int, nxtlab: nat) returns (code: seq<Instr>, err: bool)
    requires Fits(e, 0) && Declared(e, |syms|)
    ensures err <==> !LvaluesOk(e)
    ensures !err ==> (forall low: nat, m: Machine, env: seq<Word>, junk: Junk :: RunsRight(syms, stkp, e, code, low, m, env, junk))
  {
    hide RunsRight, Value, LvaluesOk, Declared, Fits;
    var c := new Compiler(Tokens(e), syms, stkp, nxtlab);
    assert Ahead(c.input, 0, e, 0, |syms|);
    err := c.Expression(e);
    code := c.out;
    if !err {
      assert [] + Value(syms, e, stkp, nxtlab) == Value(syms, e, stkp, nxtlab);
      forall low: nat, m: Machine, env: seq<Word>, junk: Junk ensures RunsRight(syms, stkp, e, code, low, m, env, junk) {
        ValueRunsRight(syms, stkp, e, nxtlab, low, m, env, junk);
      }
    }
  }

  /** Started with the variables laid out around the stack and room for e's pushes and calls, code computes e. */
  ghost predicate RunsRight(syms: Symbols, stkp: int, e: Expr, code: seq<Instr>, low: nat, m: Machine, env: seq<Word>, junk: Junk)
    requires LvaluesOk(e) && Declared(e, |syms|)
  {
    var f := Frame(syms, m.sp - stkp, low);
    f.Layout(m.sp) && f.Shows(m.mem, env) && low + Depth(e) + CALL_ROOM <= m.sp ==>
      f.Computed(m, Run(code, m, junk), Eval(e, env).0, Eval(e, env).1)
  }

  lemma ValueRunsRight(syms: Symbols, stkp: int, e: Expr, lab: nat, low: nat, m: Machine, env: seq<Word>, junk: Junk)
    requires LvaluesOk(e) && Declared(e, |syms|)
    ensures RunsRight(syms, stkp, e, Value(syms, e, stkp, lab), low, m, env, junk)
  {
    hide Run, Value, Eval, LvaluesOk, Declared, Depth, Frame.Layout, Frame.Computed;
    var f := Frame(syms, m.sp - stkp, low);
    if f.Layout(m.sp) && f.Shows(m.mem, env) && low + Depth(e) + CALL_ROOM <= m.sp {
      ValueRuns(f, e, stkp, lab, m, env, junk);
    }
  }

  predicate IsAssign(e: Expr) {
    e.Assign? || e.OpAssign?
  }

  /** A token that hier1b to hier9 take for an operator of theirs.  hier4 also stays for "&&", but only to
      fetch its operand. */
  predicate AtLevel(t: Token, level: nat, entering: bool) {
    t.TOp? && (Level(t.op) == level || (entering && level == 5 && t.op.LogAnd?))
  }

  predicate IsChain(e: Expr, level: nat) {
    e.Chain? && e.rest.More? && Level(e.rest.op) == level
  }

  lemma ParenAhead(input: seq<Token>, pos: nat, e: Expr, vars: nat)
    requires Ahead(input, pos, e, 12, vars) && e.Paren?
    ensures Ahead(input, pos + 1, e.e, 0, vars) && TokenAt(input, pos + 1 + |Tokens(e.e)|) == RParen
  {
    assert Tokens(e) == [LParen] + (Tokens(e.e) + [RParen]);
    AtSplit(input, pos, [LParen], Tokens(e.e) + [RParen]);
    AtSplit(input, pos + 1, Tokens(e.e), [RParen]);
  }

  lemma AssignAhead(input: seq<Token>, pos: nat, e: Expr, vars: nat)
    requires Ahead(input, pos, e, 0, vars)
    ensures !IsAssign(e) ==> Ahead(input, pos, e, 1, vars)
    ensures !IsAssign(e) ==> var t := TokenAt(input, pos + |Tokens(e)|); !t.Equals? && !t.OpEquals?
    ensures IsAssign(e) ==> Ahead(input, pos, e.lhs, 1, vars) && Ahead(input, pos + |Tokens(e.lhs)| + 1, e.rhs, 0, vars)
    ensures IsAssign(e) ==> |Tokens(e)| == |Tokens(e.lhs)| + 1 + |Tokens(e.rhs)|
    ensures IsAssign(e) ==> TokenAt(input, pos + |Tokens(e.lhs)|) == AssignToken(e)
  {
    hide Tokens, Declared, At;
    if IsAssign(e) {
      hide Fits;
      var t := AssignToken(e);
      AssignTokens(e, vars);
      AtSplit(input, pos, Tokens(e.lhs), [t] + Tokens(e.rhs));
      AtSplit(input, pos + |Tokens(e.lhs)|, [t], Tokens(e.rhs));
      assert pos + |Tokens(e.lhs)| + 1 + |Tokens(e.rhs)| == pos + |Tokens(e)|;
    }
  }

  function AssignToken(e: Expr): Token
    requires IsAssign(e)
  {
    if e.Assign? then Equals else OpEquals(e.op)
  }

  lemma AssignTokens(e: Expr, vars: nat)
    requires IsAssign(e) && Fits(e, 0) && Declared(e, vars)
    ensures Tokens(e) == Tokens(e.lhs) + ([AssignToken(e)] + Tokens(e.rhs))
    ensures Fits(e.lhs, 1) && Fits(e.rhs, 0) && Declared(e.lhs, vars) && Declared(e.rhs, vars)
  {
  }

  lemma AssignFacts(input: seq<Token>, pos: nat, e: Expr, vars: nat)
    requires Ahead(input, pos, e, 0, vars)
    ensures Declared(e, vars)
    ensures IsAssign(e) ==> !IsLvalue(e) && (LvaluesOk(e) <==> IsLvalue(e.lhs) && LvaluesOk(e.rhs))
    ensures IsAssign(e) && IsLvalue(e.lhs) ==> LvaluesOk(e.lhs) && Labels(e) == Labels(e.rhs) && Labels(e.lhs) == 0
  {
    if IsAssign(e) && IsLvalue(e.lhs) {
      LvalueLabels(e.lhs);
    }
  }

  lemma {:induction false} LvalueLabels(e: Expr)
    requires IsLvalue(e)
    ensures LvaluesOk(e) && Labels(e) == 0
  {
    if e.Paren? {
      LvalueLabels(e.e);
    }
  }

  /** The code of a level as a first operand and the rest of the chain, empty when e is no chain of that level. */
  ghost function First(e: Expr, level: nat): Expr {
    if IsChain(e, level) then e.first else e
  }

  ghost function Tail(e: Expr, level: nat): Rest {
    if IsChain(e, level) then e.rest else End
  }

  lemma SplitAhead(input: seq<Token>, pos: nat, e: Expr, level: nat, vars: nat)
    requires Ahead(input, pos, e, level, vars) && 1 <= level <= 10
    ensures Ahead(input, pos, First(e, level), level + 1, vars)
    ensures RestAhead(input, pos + |Tokens(First(e, level))|, Tail(e, level), level, vars)
    ensures |Tokens(e)| == |Tokens(First(e, level))| + |RestTokens(Tail(e, level))|
    ensures Declared(First(e, level), vars) && RestDeclared(Tail(e, level), vars) && Declared(e, vars)
  {
    if IsChain(e, level) {
      ChainAhead(input, pos, e, level, vars);
    } else {
      HigherAhead(input, pos, e, level, vars);
    }
  }

  lemma SplitFacts(e: Expr, level: nat)
    ensures LvaluesOk(e) <==> LvaluesOk(First(e, level)) && RestLvaluesOk(Tail(e, level))
    ensures Labels(e) == Labels(First(e, level)) + RestLabels(Tail(e, level))
    ensures Tail(e, level).More? ==> e.Chain? && Tail(e, level) == e.rest && First(e, level) == e.first
    ensures Tail(e, level).End? ==> First(e, level) == e
  {
  }

  lemma Regroup(a: seq<Instr>, b: seq<Instr>, c: seq<Instr>)
    ensures a + b + c == a + (b + c) && b + [] == b
  {
  }

  lemma ChainValue(syms: Symbols, e: Expr, stkp: int, lab: nat)
    requires e.Chain? && LvaluesOk(e) && Declared(e, |syms|) && LvaluesOk(e.first) && Declared(e.first, |syms|)
    requires RestLvaluesOk(e.rest) && RestDeclared(e.rest, |syms|)
    ensures Value(syms, e, stkp, lab) == Value(syms, e.first, stkp, lab) + RestValue(syms, e.rest, stkp, lab + Labels(e.first))
  {
  }

  lemma SplitValue(syms: Symbols, e: Expr, level: nat, stkp: int, lab: nat, out: seq<Instr>)
    requires LvaluesOk(e) && Declared(e, |syms|) && LvaluesOk(First(e, level)) && Declared(First(e, level), |syms|)
    requires RestLvaluesOk(Tail(e, level)) && RestDeclared(Tail(e, level), |syms|)
    ensures out + Value(syms, First(e, level), stkp, lab)
              + RestValue(syms, Tail(e, level), stkp, lab + Labels(First(e, level))) == out + Value(syms, e, stkp, lab)
  {
    hide Level, LvaluesOk, Declared, Value, RestValue, Labels;
    if IsChain(e, level) {
      ChainValue(syms, e, stkp, lab);
    } else {
      NoMore(syms, stkp, lab + Labels(e), []);
    }
    Regroup(out, Value(syms, First(e, level), stkp, lab), RestValue(syms, Tail(e, level), stkp, lab + Labels(First(e, level))));
  }

  lemma RestFacts(rest: Rest, vars: nat)
    requires rest.More?
    ensures RestLvaluesOk(rest) <==> LvaluesOk(rest.e) && RestLvaluesOk(rest.rest)
    ensures RestDeclared(rest, vars) <==> Declared(rest.e, vars) && RestDeclared(rest.rest, vars)
    ensures RestLabels(rest) == StepLabels(rest.op, rest.e) + RestLabels(rest.rest)
  {
  }

  lemma StepValue(syms: Symbols, rest: Rest, stkp: int, lab: nat, out: seq<Instr>)
    requires rest.More? && RestLvaluesOk(rest) && RestDeclared(rest, |syms|)
    requires LvaluesOk(rest.e) && Declared(rest.e, |syms|) && RestLvaluesOk(rest.rest) && RestDeclared(rest.rest, |syms|)
    ensures out + RestValue(syms, rest, stkp, lab)
         == out + StepCode(syms, rest.op, rest.e, stkp, lab)
              + RestValue(syms, rest.rest, stkp, lab + StepLabels(rest.op, rest.e))
  {
    hide StepCode, LvaluesOk, Declared;
    Regroup(out, StepCode(syms, rest.op, rest.e, stkp, lab), RestValue(syms, rest.rest, stkp, lab + StepLabels(rest.op, rest.e)));
  }

  lemma NoMore(syms: Symbols, stkp: int, lab: nat, out: seq<Instr>)
    ensures RestLvaluesOk(End) && RestDeclared(End, |syms|) && RestLabels(End) == 0 && out + RestValue(syms, End, stkp, lab) == out
  {
  }

  lemma AssignValue(syms: Symbols, e: Expr, stkp: int, lab: nat)
    requires IsAssign(e) && LvaluesOk(e) && Declared(e, |syms|) && LvaluesOk(e.rhs) && Declared(e.rhs, |syms|)
    ensures IsLvalue(e.lhs) && Target(e.lhs) < |syms|
    ensures
      var s := syms[Target(e.lhs)];
      Value(syms, e, stkp, lab) ==
        if e.Assign? then AssignCode(s, stkp, Value(syms, e.rhs, stkp - Saved(s), lab))
        else OpAssignCode(s, stkp, e.op, Value(syms, e.rhs, stkp - Saved(s) - 2, lab))
  {
    hide AssignCode, OpAssignCode;
    TargetDeclared(e.lhs, |syms|);
  }
}
