/** The peephole rewriter of the Small C tool chain (Applications/SmallC/copt.c), for rules whose patterns are
    literals and the variables %0 to %9.  Whatever the rules, a line that matches is the pattern under the final
    variables; and if the rules preserve a meaning that can be taken piece by piece, so does every step. */
module Peephole {
  const VARNUM: nat := 10
  const MAXLINE: nat := 1024

  type Digit = d: nat | d < 10

  datatype Elem = Lit(c: char) | Var(d: Digit)

  type Pattern = seq<Elem>

  datatype Value = Unbound | Bound(s: string)

  type Table = t: seq<Value> | |t| == 10 witness seq(10, _ => Unbound)

  datatype Line = Line(text: string, comment: bool)

  datatype Rule = Rule(find: seq<Pattern>, put: seq<Pattern>)

  /** readpattern gives up on a rule without lines to find or to put. */
  predicate RuleOk(r: Rule) {
    r.find != [] && r.put != []
  }

  function Text(e: Elem, t: Table): string {
    match e
    case Lit(c) => [c]
    case Var(d) => if t[d].Bound? then t[d].s else ""
  }

  /** subst */
  function Subst(p: Pattern, t: Table): string {
    if p == [] then "" else Subst(p[..|p| - 1], t) + Text(p[|p| - 1], t)
  }

  function Instances(ps: seq<Pattern>, t: Table): (lines: seq<string>)
    ensures |lines| == |ps|
  {
    seq(|ps|, i requires 0 <= i < |ps| => Subst(ps[i], t))
  }

  predicate AllBound(p: Pattern, t: Table) {
    forall i :: 0 <= i < |p| && p[i].Var? ==> t[p[i].d].Bound?
  }

  /** A variable once bound keeps its text. */
  predicate Extends(t: Table, u: Table) {
    forall d: Digit :: t[d].Bound? ==> u[d] == t[d]
  }

  /** More bindings do not change a pattern whose variables are bound. */
  lemma SubstExtends(p: Pattern, t: Table, u: Table)
    requires AllBound(p, t) && Extends(t, u)
    ensures AllBound(p, u) && Subst(p, u) == Subst(p, t)
  {
    hide Text, Subst;
    forall i | 0 <= i < |p| ensures Text(p[i], u) == Text(p[i], t) && (p[i].Var? ==> u[p[i].d].Bound?) {
      TextExtends(p[i], t, u);
    }
    SameTexts(p, t, u);
  }

  lemma TextExtends(e: Elem, t: Table, u: Table)
    requires (e.Var? ==> t[e.d].Bound?) && Extends(t, u)
    ensures Text(e, u) == Text(e, t) && (e.Var? ==> u[e.d].Bound?)
  {
  }

  lemma {:induction false} SameTexts(p: Pattern, t: Table, u: Table)
    requires forall i :: 0 <= i < |p| ==> Text(p[i], u) == Text(p[i], t)
    ensures Subst(p, u) == Subst(p, t)
  {
    hide Text;
    if p != [] {
      SameTexts(p[..|p| - 1], t, u);
    }
  }

  lemma SubstOne(p: Pattern, j: nat, t: Table)
    requires j < |p|
    ensures Subst(p[..j + 1], t) == Subst(p[..j], t) + Text(p[j], t)
  {
    assert p[..j + 1][..j] == p[..j];
  }

  /** The first j elements of the pattern stand for the first i characters of the text. */
  predicate Consumed(p: Pattern, j: nat, ins: string, i: nat, t: Table)
    requires j <= |p| && i <= |ins|
  {
    AllBound(p[..j], t) && Subst(p[..j], t) == ins[..i]
  }

  lemma Nothing(p: Pattern, ins: string, t: Table)
    ensures Extends(t, t) && Consumed(p, 0, ins, 0, t)
  {
  }

  lemma ConsumeLit(p: Pattern, j: nat, ins: string, i: nat, t: Table)
    requires j < |p| && i < |ins| && p[j] == Lit(ins[i]) && Consumed(p, j, ins, i, t)
    ensures Consumed(p, j + 1, ins, i + 1, t)
  {
    SubstOne(p, j, t);
    assert ins[..i + 1] == ins[..i] + [ins[i]];
  }

  lemma ConsumeVar(p: Pattern, j: nat, ins: string, cp: nat, i: nat, t: Table)
    requires j < |p| && cp <= i <= |ins| && p[j].Var? && t[p[j].d] == Bound(ins[cp..i]) && Consumed(p, j, ins, cp, t)
    ensures Consumed(p, j + 1, ins, i, t)
  {
    SubstOne(p, j, t);
    assert ins[..i] == ins[..cp] + ins[cp..i];
  }

  lemma ConsumedExtends(p: Pattern, j: nat, ins: string, i: nat, t: Table, u: Table)
    requires j <= |p| && i <= |ins| && Consumed(p, j, ins, i, t) && Extends(t, u)
    ensures Consumed(p, j, ins, i, u)
  {
    SubstExtends(p[..j], t, u);
  }

  lemma ConsumedAll(p: Pattern, ins: string, t: Table)
    requires Consumed(p, |p|, ins, |ins|, t)
    ensures AllBound(p, t) && Subst(p, t) == ins
  {
    assert p[..|p|] == p && ins[..|ins|] == ins;
  }

  lemma ExtendsTrans(t: Table, u: Table, v: Table)
    requires Extends(t, u) && Extends(u, v)
    ensures Extends(t, v)
  {
    forall d: Digit | t[d].Bound? ensures v[d] == t[d] {
      assert u[d] == t[d];
    }
  }

  lemma ExtendsRefl(t: Table)
    ensures Extends(t, t)
  {
  }

  lemma BindExtends(u: Table, d: Digit, v: Table)
    requires v == u || (u[d].Unbound? && v == u[d := v[d]])
    ensures Extends(u, v)
  {
  }

  // ------------------------------------------------------------------ which lines match

  /** What match answers and the variables it leaves. */
  datatype Outcome = Outcome(ok: bool, t: Table)

  /** match: a variable takes the text up to the first place from which the rest of the pattern matches, or all of it;
      variables bound on the way stay bound, even by tries that fail. */
  function Leftmost(p: Pattern, ins: string, t: Table): Outcome
    decreases |p|, 0, 0
  {
    if p == [] || ins == "" then Outcome(p == [] && ins == "", t)
    else match p[0]
      case Lit(c) => if c == ins[0] then Leftmost(p[1..], ins[1..], t) else Outcome(false, t)
      case Var(d) =>
        var u := Tried(p[1..], ins, 0, t);
        var x := Bound(ins[..u.0]);
        if u.1[d].Unbound? || u.1[d] == x then Leftmost(p[1..], ins[u.0..], u.1[d := x]) else Outcome(false, u.1)
  }

  /** The first place from i on where the pattern matches, or the end, and the variables after the tries. */
  function Tried(p: Pattern, ins: string, i: nat, t: Table): (r: (nat, Table))
    requires i <= |ins|
    ensures i <= r.0 <= |ins|
    decreases |p|, 1, |ins| - i
  {
    if i == |ins| then (i, t)
    else
      var m := Leftmost(p, ins[i..], t);
      if m.ok then (i, m.t) else Tried(p, ins, i + 1, m.t)
  }

  /** A pattern whose variables stand for any texts; a variable is not reached when no text is left. */
  ghost predicate Glob(p: Pattern, ins: string)
    decreases |p|
  {
    if p == [] then ins == ""
    else ins != "" && match p[0]
                      case Lit(c) => c == ins[0] && Glob(p[1..], ins[1..])
                      case Var(_) => exists i :: 0 <= i <= |ins| && Glob(p[1..], ins[i..])
  }

  /** What matches is a text of that kind, whatever the variables were. */
  lemma {:induction false} MatchIsGlob(p: Pattern, ins: string, t: Table)
    requires Leftmost(p, ins, t).ok
    ensures Glob(p, ins)
    decreases |p|
  {
    if p != [] {
      match p[0]
      case Lit(c) => MatchIsGlob(p[1..], ins[1..], t);
      case Var(d) =>
        var u := Tried(p[1..], ins, 0, t);
        MatchIsGlob(p[1..], ins[u.0..], u.1[d := Bound(ins[..u.0])]);
    }
  }

  /** A try that fails and yet binds something leaves nothing to find further on. */
  lemma {:induction false} NothingLater(p: Pattern, ins: string, t: Table, k: nat)
    requires !Glob(p, ins) && Leftmost(p, ins, t).t != t && k <= |ins|
    ensures !Glob(p, ins[k..])
    decreases |p|
  {
    match p[0]
    case Lit(c) =>
      if k < |ins| {
        NothingLater(p[1..], ins[1..], t, k);
        assert ins[1..][k..] == ins[k..][1..];
      }
    case Var(d) =>
      if Glob(p, ins[k..]) {
        VarEarlier(p, ins, k);
      }
  }

  lemma VarEarlier(p: Pattern, ins: string, k: nat)
    requires p != [] && p[0].Var? && k <= |ins| && Glob(p, ins[k..])
    ensures Glob(p, ins)
  {
    var i :| 0 <= i <= |ins[k..]| && Glob(p[1..], ins[k..][i..]);
    assert ins[k..][i..] == ins[k + i..];
  }

  /** The first place from i on where the text is of the pattern's kind, or the end. */
  ghost function Least(p: Pattern, ins: string, i: nat): (r: nat)
    requires i <= |ins|
    ensures i <= r <= |ins| && (r < |ins| ==> Glob(p, ins[r..]))
    ensures forall k :: i <= k < r ==> !Glob(p, ins[k..])
    decreases |ins| - i
  {
    if i == |ins| || Glob(p, ins[i..]) then i else Least(p, ins, i + 1)
  }

  /** The shortest texts for the variables, from left to right. */
  ghost function Pieces(p: Pattern, ins: string): map<Digit, Value>
    decreases |p|
  {
    if p == [] || ins == "" then map[]
    else match p[0]
      case Lit(_) => Pieces(p[1..], ins[1..])
      case Var(d) => var i := Least(p[1..], ins, 0); Pieces(p[1..], ins[i..])[d := Bound(ins[..i])]
  }

  /** No variable occurs twice. */
  predicate Linear(p: Pattern) {
    forall i, j :: 0 <= i < j < |p| && p[i].Var? && p[j].Var? ==> p[i] != p[j]
  }

  /** The variables that are bound have these texts. */
  ghost predicate Agrees(t: Table, m: map<Digit, Value>) {
    forall d :: d in m ==> t[d].Unbound? || t[d] == m[d]
  }

  function With(t: Table, m: map<Digit, Value>): Table {
    seq(10, d requires 0 <= d < 10 => var e: Digit := d; if e in m then m[e] else t[e])
  }

  lemma WithNone(t: Table)
    ensures With(t, map[]) == t
  {
  }

  lemma {:induction false} PiecesOf(p: Pattern, ins: string, d: Digit)
    requires d in Pieces(p, ins)
    ensures Var(d) in p
    decreases |p|
  {
    if p[0] != Var(d) {
      match p[0]
      case Lit(_) => PiecesOf(p[1..], ins[1..], d);
      case Var(_) => PiecesOf(p[1..], ins[Least(p[1..], ins, 0)..], d);
    }
  }

  /** The tries stop at the first place where the text is of the pattern's kind. */
  lemma {:induction false} TriedIs(p: Pattern, ins: string, i: nat, t: Table)
    requires i <= |ins|
    ensures var k := Least(p, ins, i);
      && (k < |ins| && Leftmost(p, ins[k..], t).ok ==> Tried(p, ins, i, t) == (k, Leftmost(p, ins[k..], t).t))
      && (p == [] ==> Tried(p, ins, i, t) == (|ins|, t))
    decreases |ins| - i
  {
    if i < |ins| && !Glob(p, ins[i..]) {
      if Leftmost(p, ins[i..], t).ok {
        MatchIsGlob(p, ins[i..], t);
      }
      TriedIs(p, ins, i + 1, t);
      var k := Least(p, ins, i);
      if k < |ins| && Leftmost(p, ins[i..], t).t != t {
        NothingLater(p, ins[i..], t, k - i);
        assert ins[i..][k - i..] == ins[k..];
      }
    }
  }

  /** A pattern in which no variable occurs twice matches if the text is of its kind and the variables that are bound
      have the shortest texts; the others then get them. */
  lemma {:induction false} GlobMatches(p: Pattern, ins: string, t: Table)
    requires Linear(p) && Glob(p, ins) && Agrees(t, Pieces(p, ins))
    ensures Leftmost(p, ins, t) == Outcome(true, With(t, Pieces(p, ins)))
    decreases |p|
  {
    hide With, Agrees, Tried;
    if p == [] {
      WithNone(t);
    } else {
      var rest := p[1..];
      assert Linear(rest);
      match p[0]
      case Lit(c) => GlobMatches(rest, ins[1..], t);
      case Var(d) =>
        var i := Least(rest, ins, 0);
        var m, x := Pieces(rest, ins[i..]), Bound(ins[..i]);
        LeastFits(rest, ins);
        OnlyOnce(p, ins[i..], d);
        AgreesOn(t, m, d, x);
        GlobMatches(rest, ins[i..], t);
        var u := With(t, m);
        TriedAt(rest, ins, t, i, u);
        GlobMatches(rest, ins[i..], u[d := x]);
    }
  }

  /** What the tries for the text of a variable come to. */
  lemma TriedAt(p: Pattern, ins: string, t: Table, i: nat, u: Table)
    requires i == Least(p, ins, 0) && Leftmost(p, ins[i..], t) == Outcome(true, u) && (i == |ins| ==> p == [])
    ensures Tried(p, ins, 0, t) == (i, u)
  {
    TriedIs(p, ins, 0, t);
  }

  lemma OnlyOnce(p: Pattern, ins: string, d: Digit)
    requires p != [] && Linear(p) && p[0] == Var(d)
    ensures d !in Pieces(p[1..], ins) && Linear(p[1..])
  {
    if d in Pieces(p[1..], ins) {
      PiecesOf(p[1..], ins, d);
    }
  }

  lemma AgreesOn(t: Table, m: map<Digit, Value>, d: Digit, x: Value)
    requires d !in m && Agrees(t, m[d := x])
    ensures Agrees(t, m) && (t[d].Unbound? || t[d] == x)
    ensures var u := With(t, m); u[d] == t[d] && Agrees(u[d := x], m) && With(u[d := x], m) == With(t, m[d := x])
  {
    forall e | e in m ensures t[e].Unbound? || t[e] == m[e] {
      assert m[d := x][e] == m[e];
    }
  }

  /** The place where a variable's text ends is one from which the rest is of its kind. */
  lemma LeastFits(p: Pattern, ins: string)
    requires exists i :: 0 <= i <= |ins| && Glob(p, ins[i..])
    ensures Glob(p, ins[Least(p, ins, 0)..]) && (Least(p, ins, 0) == |ins| ==> p == [])
  {
    var k := Least(p, ins, 0);
    var i :| 0 <= i <= |ins| && Glob(p, ins[i..]);
    assert k == |ins| ==> i == k;
  }

  /** So on fresh variables it matches if and only if the text is of its kind. */
  lemma MatchExactly(p: Pattern, ins: string, t: Table)
    requires Linear(p) && forall d: Digit :: Var(d) in p ==> t[d].Unbound?
    ensures Leftmost(p, ins, t).ok <==> Glob(p, ins)
    ensures Glob(p, ins) ==> Leftmost(p, ins, t).t == With(t, Pieces(p, ins))
  {
    if Glob(p, ins) {
      forall d | d in Pieces(p, ins) ensures t[d].Unbound? {
        PiecesOf(p, ins, d);
      }
      GlobMatches(p, ins, t);
    } else if Leftmost(p, ins, t).ok {
      MatchIsGlob(p, ins, t);
    }
  }

  /** The pattern of a text without variables. */
  function Literal(text: string): (p: Pattern)
    ensures |p| == |text|
  {
    seq(|text|, i requires 0 <= i < |text| => Lit(text[i]))
  }

  /** A pattern of literals matches its own text and nothing else, and binds nothing. */
  lemma {:induction false} LiteralMatch(text: string, ins: string, t: Table)
    ensures Leftmost(Literal(text), ins, t).ok <==> ins == text
    ensures Leftmost(Literal(text), ins, t).t == t
    decreases |text|
  {
    if text != "" && ins != "" {
      assert Literal(text)[1..] == Literal(text[1..]);
      LiteralMatch(text[1..], ins[1..], t);
      assert ins == text <==> ins[0] == text[0] && ins[1..] == text[1..];
    }
  }

  /** A variable between literals matches if and only if the line starts with the first, ends with the second and is
      longer than the first; it gets what is between. */
  lemma {:induction false} BetweenMatch(prefix: string, d: Digit, suffix: string, ins: string, t: Table)
    requires t[d].Unbound?
    ensures
      var m, a, b := Leftmost(Literal(prefix) + [Var(d)] + Literal(suffix), ins, t), |prefix|, |ins| - |suffix|;
      && (m.ok <==> a < |ins| && a <= b && ins[..a] == prefix && ins[b..] == suffix)
      && (m.ok ==> m.t == t[d := Bound(ins[a..b])])
    decreases |prefix|
  {
    var p := Literal(prefix) + [Var(d)] + Literal(suffix);
    if prefix == "" {
      assert p[1..] == Literal(suffix);
      if ins != "" {
        SuffixTried(suffix, ins, 0, t);
        var u := Tried(p[1..], ins, 0, t);
        LiteralMatch(suffix, ins[u.0..], u.1[d := Bound(ins[..u.0])]);
      }
    } else if ins != "" {
      assert p[1..] == Literal(prefix[1..]) + [Var(d)] + Literal(suffix);
      BetweenMatch(prefix[1..], d, suffix, ins[1..], t);
      var a, b := |prefix|, |ins| - |suffix|;
      if a <= |ins| {
        assert ins[..a] == prefix <==> ins[0] == prefix[0] && ins[1..][..a - 1] == prefix[1..];
      }
      if a <= b {
        assert ins[1..][b - 1..] == ins[b..] && ins[1..][a - 1..b - 1] == ins[a..b];
      }
    }
  }

  lemma {:induction false} SuffixTried(suffix: string, ins: string, i: nat, t: Table)
    requires i <= |ins|
    ensures var k := |ins| - |suffix|;
      Tried(Literal(suffix), ins, i, t) == (if i <= k && ins[k..] == suffix then k else |ins|, t)
    decreases |ins| - i
  {
    if i < |ins| {
      LiteralMatch(suffix, ins[i..], t);
      SuffixTried(suffix, ins, i + 1, t);
    }
  }

  /** Line by line. */
  predicate AreInstances(ps: seq<Pattern>, lines: seq<string>, t: Table) {
    |ps| == |lines| && forall i :: 0 <= i < |ps| ==> AllBound(ps[i], t) && Subst(ps[i], t) == lines[i]
  }

  lemma InstancesExtend(ps: seq<Pattern>, lines: seq<string>, t: Table, u: Table)
    requires AreInstances(ps, lines, t) && Extends(t, u)
    ensures AreInstances(ps, lines, u)
  {
    forall i | 0 <= i < |ps| ensures AllBound(ps[i], u) && Subst(ps[i], u) == lines[i] {
      SubstExtends(ps[i], t, u);
    }
  }

  // ------------------------------------------------------------------ meaning

  /** Texts that mean the same may replace each other anywhere in a program. */
  ghost predicate Compositional<T(!new)>(meaning: seq<string> -> T) {
    forall a, b, c, d :: meaning(b) == meaning(c) ==> Within(meaning, a, b, d) == Within(meaning, a, c, d)
  }

  function Within<T>(meaning: seq<string> -> T, a: seq<string>, b: seq<string>, d: seq<string>): T {
    meaning(a + b + d)
  }

  /** A line that means nothing where it stands. */
  ghost predicate Neutral<T(!new)>(meaning: seq<string> -> T, text: string) {
    meaning([text]) == meaning([])
  }

  /** A rule rewrites every instance of its pattern to something of the same meaning. */
  ghost predicate Sound<T(!new)>(meaning: seq<string> -> T, r: Rule) {
    forall t: Table :: meaning(Instances(r.find, t)) == meaning(Instances(r.put, t))
  }

  function Texts(lines: seq<Line>): (s: seq<string>)
    ensures |s| == |lines|
  {
    seq(|lines|, i requires 0 <= i < |lines| => lines[i].text)
  }

  ghost predicate CommentsNeutral<T(!new)>(meaning: seq<string> -> T, lines: seq<Line>) {
    forall i :: 0 <= i < |lines| && lines[i].comment ==> Neutral(meaning, lines[i].text)
  }

  lemma Replace<T(!new)>(meaning: seq<string> -> T, a: seq<string>, b: seq<string>, c: seq<string>, d: seq<string>)
    requires Compositional(meaning) && meaning(b) == meaning(c)
    ensures meaning(a + b + d) == meaning(a + c + d)
  {
    assert Within(meaning, a, b, d) == Within(meaning, a, c, d);
  }

  /** The first character of a pattern as written. */
  function FirstChar(p: Pattern): char {
    if p == [] then '\0' else if p[0].Lit? then p[0].c else '%'
  }

  function FirstOf(text: string): char {
    if text == "" then '\0' else text[0]
  }

  /** The lines a rule matched: in order, and all others from cur on are comments. */
  predicate Found(lines: seq<Line>, cur: nat, ins: nat, found: seq<nat>) {
    && cur <= ins <= |lines|
    && (forall j :: 0 <= j < |found| ==> cur <= found[j] < ins)
    && (forall i, j :: 0 <= i < j < |found| ==> found[i] < found[j])
    && (forall i :: cur <= i < ins && i !in found ==> lines[i].comment)
  }

  function TextsAt(lines: seq<Line>, found: seq<nat>): (s: seq<string>)
    ensures |s| == |found|
  {
    seq(|found|, j requires 0 <= j < |found| => if found[j] < |lines| then lines[found[j]].text else "")
  }

  lemma FoundNone(lines: seq<Line>, cur: nat)
    requires cur <= |lines|
    ensures Found(lines, cur, cur, []) && TextsAt(lines, []) == []
  {
  }

  lemma FoundMore(lines: seq<Line>, cur: nat, ins: nat, found: seq<nat>)
    requires Found(lines, cur, ins, found) && ins < |lines|
    ensures Found(lines, cur, ins + 1, found + [ins])
    ensures TextsAt(lines, found + [ins]) == TextsAt(lines, found) + [lines[ins].text]
  {
  }

  lemma FoundSkip(lines: seq<Line>, cur: nat, ins: nat, found: seq<nat>)
    requires Found(lines, cur, ins, found) && ins < |lines| && lines[ins].comment
    ensures Found(lines, cur, ins + 1, found)
  {
  }

  /** One rewriting step: rule r, under variables t, put in place of the lines cur..ins-1. */
  ghost predicate Rewritten(before: seq<Line>, after: seq<Line>, r: Rule, cur: nat) {
    exists ins: nat, found, t, put ::
      Found(before, cur, ins, found) && TextsAt(before, found) == Instances(r.find, t)
      && NewText(put, r, t) && after == before[..cur] + put + before[ins..]
  }

  predicate NewText(put: seq<Line>, r: Rule, t: Table) {
    Texts(put) == Instances(r.put, t) && forall i :: 0 <= i < |put| ==> !put[i].comment
  }

  /** What the outer loop of optline finds for a rule: whether its lines are there, and where they end. */
  datatype Hit = Hit(ok: bool, ins: nat, t: Table)

  /** Every line that is no comment has to match the next pattern; a comment may. */
  function FindLines(lines: seq<Line>, ins: nat, finds: seq<Pattern>, t: Table): Hit
    decreases |lines| - ins
  {
    if finds == [] || ins >= |lines| then Hit(finds == [], ins, t)
    else
      var line, p := lines[ins], finds[0];
      if line.comment && FirstOf(line.text) != FirstChar(p) then FindLines(lines, ins + 1, finds, t)
      else
        var m := Leftmost(p, line.text, t);
        if m.ok then FindLines(lines, ins + 1, finds[1..], m.t)
        else if line.comment then FindLines(lines, ins + 1, finds, m.t)
        else Hit(false, ins, m.t)
  }

  function NoVars(): Table {
    seq(10, _ => Unbound)
  }

  /** The first rule from k on whose lines are found at cur, or the number of rules. */
  function FirstRule(rules: seq<Rule>, lines: seq<Line>, cur: nat, k: nat): (r: nat)
    requires k <= |rules|
    ensures k <= r <= |rules| && (r < |rules| ==> FindLines(lines, cur, rules[r].find, NoVars()).ok)
    ensures forall i :: k <= i < r ==> !FindLines(lines, cur, rules[i].find, NoVars()).ok
    decreases |rules| - k
  {
    if k == |rules| || FindLines(lines, cur, rules[k].find, NoVars()).ok then k else FirstRule(rules, lines, cur, k + 1)
  }

  predicate LinesAre(lines: seq<Line>, ins: nat, texts: seq<string>) {
    ins + |texts| <= |lines| && forall i :: 0 <= i < |texts| ==> lines[ins + i].text == texts[i]
  }

  lemma LinesAreMore(lines: seq<Line>, ins: nat, texts: seq<string>)
    requires texts != []
    ensures LinesAre(lines, ins, texts) <==> ins < |lines| && lines[ins].text == texts[0] && LinesAre(lines, ins + 1, texts[1..])
  {
    if ins < |lines| && lines[ins].text == texts[0] && LinesAre(lines, ins + 1, texts[1..]) {
      forall i | 0 <= i < |texts| ensures lines[ins + i].text == texts[i] {
        assert i > 0 ==> lines[ins + 1 + (i - 1)].text == texts[1..][i - 1];
      }
    }
    if LinesAre(lines, ins, texts) {
      assert lines[ins + 0].text == texts[0];
      forall i | 0 <= i < |texts| - 1 ensures lines[ins + 1 + i].text == texts[1..][i] {
        assert lines[ins + (i + 1)].text == texts[i + 1];
      }
    }
  }

  /** A rule of literal lines is found exactly where those lines stand, if there is no comment among them. */
  lemma {:induction false} LiteralRule(lines: seq<Line>, ins: nat, texts: seq<string>, finds: seq<Pattern>, t: Table)
    requires |finds| == |texts| && ins <= |lines| && forall i :: 0 <= i < |texts| ==> finds[i] == Literal(texts[i])
    requires forall i :: ins <= i < ins + |texts| && i < |lines| ==> !lines[i].comment
    ensures FindLines(lines, ins, finds, t).ok <==> LinesAre(lines, ins, texts)
    ensures FindLines(lines, ins, finds, t).ok ==> FindLines(lines, ins, finds, t) == Hit(true, ins + |texts|, t)
    decreases |texts|
  {
    hide LinesAre;
    if texts == [] {
      NoTexts(lines, ins);
    } else {
      LinesAreMore(lines, ins, texts);
      if ins < |lines| {
        LiteralMatch(texts[0], lines[ins].text, t);
        LiteralRule(lines, ins + 1, texts[1..], finds[1..], t);
      }
    }
  }

  lemma NoTexts(lines: seq<Line>, ins: nat)
    requires ins <= |lines|
    ensures LinesAre(lines, ins, [])
  {
  }

  /** The line is of the pattern's kind, and the shortest texts it gives to the variables are those of the table. */
  ghost predicate Fits(line: Line, p: Pattern, all: Table) {
    && !line.comment && Linear(p) && Glob(p, line.text)
    && forall d :: d in Pieces(p, line.text) ==> all[d] == Pieces(p, line.text)[d]
  }

  ghost predicate Fitting(lines: seq<Line>, ins: nat, finds: seq<Pattern>, all: Table) {
    ins + |finds| <= |lines| && forall i :: ins <= i < ins + |finds| ==> Fits(lines[i], finds[i - ins], all)
  }

  /** A rule is found wherever each line is of its pattern's kind and the shortest texts agree from line to line. */
  lemma {:induction false} FittingFound(lines: seq<Line>, ins: nat, finds: seq<Pattern>, all: Table, t: Table)
    requires Fitting(lines, ins, finds, all) && forall d: Digit :: t[d].Bound? ==> t[d] == all[d]
    ensures FindLines(lines, ins, finds, t).ok && FindLines(lines, ins, finds, t).ins == ins + |finds|
    decreases |finds|
  {
    if finds != [] {
      assert Fits(lines[ins], finds[0], all);
      var text := lines[ins].text;
      GlobMatches(finds[0], text, t);
      hide Pieces, Glob, Leftmost;
      FittingFound(lines, ins + 1, finds[1..], all, With(t, Pieces(finds[0], text)));
    }
  }

  predicate FitBuffer(r: Rule, t: Table) {
    forall i :: 0 <= i < |r.put| ==> |Subst(r.put[i], t)| < MAXLINE - 1
  }

  /** The lines found from cur on are replaced by the rule's new ones. */
  predicate Replaced(before: seq<Line>, after: seq<Line>, cur: nat, r: Rule, h: Hit) {
    var end := cur + |r.put|;
    && cur <= h.ins <= |before| && end <= |after|
    && after[..cur] == before[..cur] && after[end..] == before[h.ins..]
    && NewText(after[cur..end], r, h.t)
  }

  /** A moment of optimize: the lines, the one it is at or -1, and whether it is inside assembler code. */
  datatype Moment = Moment(lines: seq<Line>, cur: int, inAsm: bool)

  function After(m: Moment): int {
    if m.cur + 1 < |m.lines| then m.cur + 1 else -1
  }

  /** One turn of optimize.  Where it goes on behind a replacement is left open between two lines. */
  predicate Turn(rules: seq<Rule>, backup: nat, m: Moment, n: Moment)
    requires 0 <= m.cur < |m.lines|
  {
    var line := m.lines[m.cur];
    if line.comment || m.inAsm then
      n == Moment(m.lines, After(m), if "!BCC_" <= line.text then "ASM" <= line.text[5..] else m.inAsm)
    else
      var k := FirstRule(rules, m.lines, m.cur, 0);
      if k == |rules| then n == Moment(m.lines, After(m), m.inAsm)
      else
        var h, back := FindLines(m.lines, m.cur, rules[k].find, NoVars()), m.cur - 1;
        && FitBuffer(rules[k], h.t) && Replaced(m.lines, n.lines, m.cur, rules[k], h) && n.inAsm == m.inAsm
        && (n.cur == back || (back >= 0 && n.cur == if back < backup then 0 else back - backup))
  }

  /** The program exits because a new line does not fit the buffer. */
  predicate TooLong(rules: seq<Rule>, m: Moment)
    requires 0 <= m.cur < |m.lines|
  {
    var k := FirstRule(rules, m.lines, m.cur, 0);
    && !m.lines[m.cur].comment && !m.inAsm && k < |rules|
    && !FitBuffer(rules[k], FindLines(m.lines, m.cur, rules[k].find, NoVars()).t)
  }

  class Optimizer {
    const rules: seq<Rule>
    const vars: array<Value>
    /** The list of lines of the input file. */
    var lines: seq<Line>

    ghost function Vars(): Table
      requires vars.Length == VARNUM
      reads vars
    {
      vars[..]
    }

    constructor (rules: seq<Rule>, lines: seq<Line>)
      ensures this.rules == rules && this.lines == lines && vars.Length == VARNUM && fresh(vars)
    {
      this.rules, this.lines := rules, lines;
      vars := new Value[VARNUM](_ => Unbound);
    }

    /** match: bindings are never undone, not even those of tries that fail. */
    method Match(ins: string, pat: Pattern) returns (ok: bool)
      requires vars.Length == VARNUM
      modifies vars
      ensures Extends(old(Vars()), Vars())
      ensures ok ==> AllBound(pat, Vars()) && Subst(pat, Vars()) == ins
      ensures Outcome(ok, Vars()) == Leftmost(pat, ins, old(Vars()))
      decreases |pat|, 0
    {
      hide Extends, Consumed, AllBound, Subst, Tried;
      ghost var t0 := Vars();
      var i, j := 0, 0;
      Nothing(pat, ins, t0);
      assert pat[0..] == pat && ins[0..] == ins;
      while i < |ins| && j < |pat|
        invariant 0 <= i <= |ins| && 0 <= j <= |pat|
        invariant Extends(t0, Vars()) && Consumed(pat, j, ins, i, Vars())
        invariant Leftmost(pat[j..], ins[i..], Vars()) == Leftmost(pat, ins, t0)
        decreases |pat| - j
      {
        assert pat[j..][1..] == pat[j + 1..];
        match pat[j] {
          case Lit(c) =>
            assert ins[i..][1..] == ins[i + 1..];
            if c != ins[i] {
              return false;
            }
            ConsumeLit(pat, j, ins, i, Vars());
            i := i + 1;
            j := j + 1;
          case Var(d) =>
            var cp := i;
            ghost var t := Vars();
            i := Scan(ins, i, pat[j + 1..]);
            ghost var u := Vars();
            assert ins[cp..][..i - cp] == ins[cp..i] && ins[cp..][i - cp..] == ins[i..];
            assert u[d] == vars[d];
            if vars[d].Unbound? {
              vars[d] := Bound(ins[cp..i]);
            } else if vars[d].s != ins[cp..i] {
              ExtendsTrans(t0, t, u);
              return false;
            }
            assert Vars() == u[d := Bound(ins[cp..i])];
            BindExtends(u, d, Vars());
            ExtendsTrans(t, u, Vars());
            ExtendsTrans(t0, t, Vars());
            ConsumedExtends(pat, j, ins, cp, t, Vars());
            ConsumeVar(pat, j, ins, cp, i, Vars());
            j := j + 1;
        }
      }
      ok := i == |ins| && j == |pat|;
      if ok {
        ConsumedAll(pat, ins, Vars());
      }
    }

    /** How much text a variable takes: up to the first place where the rest of the pattern matches. */
    method Scan(ins: string, start: nat, pat: Pattern) returns (i: nat)
      requires vars.Length == VARNUM && start <= |ins|
      modifies vars
      ensures start <= i <= |ins| && Extends(old(Vars()), Vars())
      ensures (i - start, Vars()) == Tried(pat, ins[start..], 0, old(Vars()))
      decreases |pat|, 1
    {
      hide Leftmost, Extends;
      ghost var t0 := Vars();
      ExtendsRefl(t0);
      i := start;
      while i < |ins|
        invariant start <= i <= |ins| && Extends(t0, Vars())
        invariant Tried(pat, ins[start..], 0, t0) == Tried(pat, ins[start..], i - start, Vars())
      {
        assert ins[start..][i - start..] == ins[i..];
        ghost var t := Vars();
        var hit := Match(ins[i..], pat);
        ExtendsTrans(t0, t, Vars());
        if hit {
          return;
        }
        i := i + 1;
      }
    }

    /** subst: the pattern under the variables, unless it reaches the length of the buffer. */
    method SubstLine(pat: Pattern) returns (ok: bool, text: string)
      requires vars.Length == VARNUM
      ensures ok <==> |Subst(pat, Vars())| < MAXLINE - 1
      ensures ok ==> text == Subst(pat, Vars())
    {
      text := "";
      var j := 0;
      while j < |pat|
        invariant 0 <= j <= |pat| && text == Subst(pat[..j], Vars()) && |text| < MAXLINE - 1
      {
        SubstOne(pat, j, Vars());
        match pat[j] {
          case Lit(c) => text := text + [c];
          case Var(d) => text := text + (if vars[d].Bound? then vars[d].s else "");
        }
        j := j + 1;
        if |text| >= MAXLINE - 1 {
          SubstGrows(pat, j, Vars());
          return false, text;
        }
      }
      assert pat[..j] == pat;
      ok := true;
    }

    /** One turn of the outer loop of optline: whether the rule matches from line cur, and up to where. */
    method MatchRule<T(!new)>(r: Rule, cur: nat, ghost meaning: seq<string> -> T)
      returns (ok: bool, ins: nat, ghost found: seq<nat>)
      requires vars.Length == VARNUM && cur < |lines| && Compositional(meaning) && CommentsNeutral(meaning, lines)
      modifies vars
      ensures cur <= ins <= |lines|
      ensures ok ==> Found(lines, cur, ins, found) && TextsAt(lines, found) == Instances(r.find, Vars())
      ensures ok ==> meaning(Texts(lines[cur..ins])) == meaning(Instances(r.find, Vars()))
      ensures var h := FindLines(lines, cur, r.find, NoVars()); ok == h.ok && (ok ==> ins == h.ins && Vars() == h.t)
    {
      hide Leftmost, Extends, AllBound, Subst, Compositional, CommentsNeutral, Texts, Instances, Found, TextsAt, Sofar;
      ClearVars();
      ins := cur;
      var pat := 0;
      found := [];
      ghost var done: seq<string> := [];
      SofarNone(meaning, lines, r, cur, Vars());
      assert r.find[0..] == r.find;
      while ins < |lines| && pat < |r.find|
        invariant cur <= ins <= |lines| && 0 <= pat <= |r.find| && Sofar(meaning, lines, r, cur, ins, found, pat, done, Vars())
        invariant FindLines(lines, ins, r.find[pat..], Vars()) == FindLines(lines, cur, r.find, NoVars())
      {
        assert r.find[pat..][0] == r.find[pat] && r.find[pat..][1..] == r.find[pat + 1..];
        var line := lines[ins];
        ghost var t := Vars();
        if !line.comment {
          var hit := Match(line.text, r.find[pat]);
          if !hit {
            ok := false;
            return;
          }
          SofarMore(meaning, lines, r, cur, ins, found, pat, done, t, Vars());
          found, done, pat := found + [ins], done + [line.text], pat + 1;
        } else if FirstOf(line.text) == FirstChar(r.find[pat]) {
          var hit := Match(line.text, r.find[pat]);
          if hit {
            SofarMore(meaning, lines, r, cur, ins, found, pat, done, t, Vars());
            found, done, pat := found + [ins], done + [line.text], pat + 1;
          } else {
            SofarSkip(meaning, lines, r, cur, ins, found, pat, done, t, Vars());
          }
        } else {
          SofarSkip(meaning, lines, r, cur, ins, found, pat, done, t, Vars());
        }
        ins := ins + 1;
      }
      ok := pat == |r.find|;
      if ok {
        SofarAll(meaning, lines, r, cur, ins, found, done, Vars());
      }
    }

    method ClearVars()
      requires vars.Length == VARNUM
      modifies vars
      ensures Vars() == NoVars()
    {
      var i := 0;
      while i < VARNUM
        invariant 0 <= i <= VARNUM && forall d :: 0 <= d < i ==> vars[d] == Unbound
      {
        vars[i] := Unbound;
        i := i + 1;
      }
    }

    /** The lines a rule puts in place of the ones it found. */
    method NewLines(r: Rule) returns (ok: bool, put: seq<Line>)
      requires vars.Length == VARNUM
      ensures ok ==> |put| == |r.put| && Texts(put) == Instances(r.put, Vars()) && forall i :: 0 <= i < |put| ==> !put[i].comment
      ensures ok <==> forall i :: 0 <= i < |r.put| ==> |Subst(r.put[i], Vars())| < MAXLINE - 1
    {
      put := [];
      var i := 0;
      while i < |r.put|
        invariant 0 <= i <= |r.put| && |put| == i
        invariant forall k :: 0 <= k < i ==> put[k] == Line(Subst(r.put[k], Vars()), false) && |put[k].text| < MAXLINE - 1
      {
        var text;
        ok, text := SubstLine(r.put[i]);
        if !ok {
          return;
        }
        put := put + [Line(text, false)];
        i := i + 1;
      }
      ok := true;
    }

    /** optline: next is the line to go on with, -1 for none; ok is false when a line is too long and the
        program exits. */
    method OptLine<T(!new)>(cur: nat, ghost meaning: seq<string> -> T) returns (ok: bool, replaced: bool, next: int)
      requires vars.Length == VARNUM && cur < |lines|
      requires Compositional(meaning) && CommentsNeutral(meaning, lines)
      requires forall i :: 0 <= i < |rules| ==> RuleOk(rules[i]) && Sound(meaning, rules[i])
      modifies this`lines, vars
      ensures ok ==> CommentsNeutral(meaning, lines) && meaning(Texts(lines)) == meaning(Texts(old(lines)))
      ensures ok && !replaced ==> lines == old(lines) && next == if cur + 1 < |lines| then cur + 1 else -1
      ensures ok && replaced ==> next == cur - 1 && exists i :: 0 <= i < |rules| && Rewritten(old(lines), lines, rules[i], cur)
      ensures var k := FirstRule(rules, old(lines), cur, 0);
        if k == |rules| then ok && !replaced
        else
          var h := FindLines(old(lines), cur, rules[k].find, NoVars());
          replaced && (ok <==> FitBuffer(rules[k], h.t)) && (ok ==> Replaced(old(lines), lines, cur, rules[k], h))
    {
      hide Compositional, CommentsNeutral, Sound, Texts, Instances, FindLines;
      ok, replaced := true, false;
      var i := 0;
      while i < |rules|
        invariant 0 <= i <= |rules| && ok && !replaced && lines == old(lines)
        invariant FirstRule(rules, lines, cur, 0) == FirstRule(rules, lines, cur, i)
      {
        ghost var found;
        var hit, ins;
        hit, ins, found := MatchRule(rules[i], cur, meaning);
        if hit {
          var put;
          ok, put := NewLines(rules[i]);
          if ok {
            SameMeaning(meaning, lines, cur, ins, rules[i], put, Vars());
            // with nothing to put, the rest of the list would be cut off
            lines := lines[..cur] + put + (if put == [] then [] else lines[ins..]);
            assert lines[..cur] == old(lines)[..cur] && lines[cur..cur + |put|] == put && lines[cur + |put|..] == old(lines)[ins..];
            assert NewText(put, rules[i], Vars());
            assert Rewritten(old(lines), lines, rules[i], cur);
          }
          replaced, next := true, cur - 1;
          return;
        }
        i := i + 1;
      }
      next := if cur + 1 < |lines| then cur + 1 else -1;
    }

    /** optimize, stopped after any number of turns.  Behind a replacement the source compares with the line it
        has just freed, so it may or may not go back. */
    method Optimize<T(!new)>(backup: nat, turns: nat, ghost meaning: seq<string> -> T)
      returns (ok: bool, ghost moments: seq<Moment>)
      requires vars.Length == VARNUM && Compositional(meaning) && CommentsNeutral(meaning, lines)
      requires forall i :: 0 <= i < |rules| ==> RuleOk(rules[i]) && Sound(meaning, rules[i])
      modifies this`lines, vars
      ensures ok ==> meaning(Texts(lines)) == meaning(Texts(old(lines)))
      ensures 1 <= |moments| <= turns + 1 && moments[0] == Moment(old(lines), if old(lines) == [] then -1 else 0, false)
      ensures forall i :: 0 <= i < |moments| - 1 ==>
        0 <= moments[i].cur < |moments[i].lines| && Turn(rules, backup, moments[i], moments[i + 1])
      ensures var m := moments[|moments| - 1];
        if ok then m.lines == lines && (|moments| == turns + 1 || m.cur == -1)
        else 0 <= m.cur < |m.lines| && TooLong(rules, m)
    {
      hide Compositional, CommentsNeutral, Sound, Texts, FindLines, FirstRule, FitBuffer, Replaced;
      ok := true;
      var cur: int := if lines == [] then -1 else 0;
      var inAsm, turn := false, 0;
      moments := [Moment(lines, cur, inAsm)];
      while cur != -1 && turn < turns
        invariant ok && -1 <= cur < |lines| && CommentsNeutral(meaning, lines)
        invariant meaning(Texts(lines)) == meaning(Texts(old(lines)))
        invariant turn <= turns && |moments| == turn + 1 && moments[turn] == Moment(lines, cur, inAsm)
        invariant moments[0] == Moment(old(lines), if old(lines) == [] then -1 else 0, false)
        invariant forall i :: 0 <= i < turn ==>
          0 <= moments[i].cur < |moments[i].lines| && Turn(rules, backup, moments[i], moments[i + 1])
        decreases turns - turn
      {
        var lp: int;
        if lines[cur].comment || inAsm {
          lp := if cur + 1 < |lines| then cur + 1 else -1;
          if "!BCC_" <= lines[cur].text {
            inAsm := "ASM" <= lines[cur].text[5..];
          }
        } else {
          var replaced;
          ok, replaced, lp := OptLine(cur, meaning);
          if !ok {
            return;
          }
          var goBack: bool := *;
          if lp != -1 && replaced && goBack {
            lp := if lp < backup then 0 else lp - backup;
          }
        }
        cur := lp;
        turn := turn + 1;
        moments := moments + [Moment(lines, cur, inAsm)];
      }
    }
  }

  lemma {:induction false} SubstGrows(p: Pattern, j: nat, t: Table)
    requires j <= |p|
    ensures |Subst(p[..j], t)| <= |Subst(p, t)|
    decreases |p| - j
  {
    if j == |p| {
      assert p[..j] == p;
    } else {
      SubstOne(p, j, t);
      SubstGrows(p, j + 1, t);
    }
  }

  lemma NoInstances(none: seq<Line>, ps: seq<Pattern>, t: Table)
    requires none == []
    ensures AreInstances(ps[..0], [], t) && Texts(none) == []
  {
  }

  lemma MoreInstances(ps: seq<Pattern>, n: nat, done: seq<string>, t: Table, u: Table, text: string)
    requires n < |ps| && AreInstances(ps[..n], done, t) && Extends(t, u) && AllBound(ps[n], u) && Subst(ps[n], u) == text
    ensures AreInstances(ps[..n + 1], done + [text], u)
  {
    InstancesExtend(ps[..n], done, t, u);
  }

  /** Where MatchRule is: the lines passed are the first pat patterns' instances and comments, and mean as much. */
  ghost predicate Sofar<T(!new)>(meaning: seq<string> -> T, lines: seq<Line>, r: Rule, cur: nat, ins: nat, found: seq<nat>,
                                 pat: nat, done: seq<string>, t: Table) {
    && cur <= ins <= |lines| && pat <= |r.find| && Found(lines, cur, ins, found) && TextsAt(lines, found) == done
    && AreInstances(r.find[..pat], done, t) && meaning(Texts(lines[cur..ins])) == meaning(done)
  }

  lemma SofarNone<T(!new)>(meaning: seq<string> -> T, lines: seq<Line>, r: Rule, cur: nat, t: Table)
    requires cur <= |lines|
    ensures Sofar(meaning, lines, r, cur, cur, [], 0, [], t)
  {
    FoundNone(lines, cur);
    NoInstances(lines[cur..cur], r.find, t);
  }

  lemma SofarMore<T(!new)>(meaning: seq<string> -> T, lines: seq<Line>, r: Rule, cur: nat, ins: nat, found: seq<nat>,
                           pat: nat, done: seq<string>, t: Table, u: Table)
    requires Compositional(meaning) && Sofar(meaning, lines, r, cur, ins, found, pat, done, t) && ins < |lines| && pat < |r.find|
    requires Extends(t, u) && AllBound(r.find[pat], u) && Subst(r.find[pat], u) == lines[ins].text
    ensures Sofar(meaning, lines, r, cur, ins + 1, found + [ins], pat + 1, done + [lines[ins].text], u)
  {
    hide Compositional, Texts, AreInstances, Found, TextsAt, Extends, AllBound, Subst;
    MoreInstances(r.find, pat, done, t, u, lines[ins].text);
    Longer(meaning, lines, cur, ins, done);
    FoundMore(lines, cur, ins, found);
  }

  lemma SofarSkip<T(!new)>(meaning: seq<string> -> T, lines: seq<Line>, r: Rule, cur: nat, ins: nat, found: seq<nat>,
                           pat: nat, done: seq<string>, t: Table, u: Table)
    requires Compositional(meaning) && CommentsNeutral(meaning, lines) && Sofar(meaning, lines, r, cur, ins, found, pat, done, t)
    requires ins < |lines| && lines[ins].comment && (t == u || Extends(t, u))
    ensures Sofar(meaning, lines, r, cur, ins + 1, found, pat, done, u)
  {
    hide Compositional, CommentsNeutral, Texts, AreInstances, Found, TextsAt, Extends;
    if t != u {
      InstancesExtend(r.find[..pat], done, t, u);
    }
    FoundSkip(lines, cur, ins, found);
    Skipped(meaning, lines, cur, ins, done);
  }

  lemma SofarAll<T(!new)>(meaning: seq<string> -> T, lines: seq<Line>, r: Rule, cur: nat, ins: nat, found: seq<nat>,
                          done: seq<string>, t: Table)
    requires Sofar(meaning, lines, r, cur, ins, found, |r.find|, done, t)
    ensures cur <= ins <= |lines| && Found(lines, cur, ins, found) && TextsAt(lines, found) == Instances(r.find, t)
    ensures meaning(Texts(lines[cur..ins])) == meaning(Instances(r.find, t))
  {
    hide Texts, AreInstances, Found, TextsAt;
    assert r.find[..|r.find|] == r.find;
    AllInstances(r.find, done, t);
  }

  lemma AllInstances(ps: seq<Pattern>, done: seq<string>, t: Table)
    requires AreInstances(ps, done, t)
    ensures done == Instances(ps, t)
  {
  }

  lemma TextsSnoc(lines: seq<Line>, cur: nat, ins: nat)
    requires cur <= ins < |lines|
    ensures Texts(lines[cur..ins + 1]) == Texts(lines[cur..ins]) + [lines[ins].text]
  {
  }

  /** A line joins the lines found and the ones that stand for them. */
  lemma Longer<T(!new)>(meaning: seq<string> -> T, lines: seq<Line>, cur: nat, ins: nat, done: seq<string>)
    requires Compositional(meaning) && cur <= ins < |lines| && meaning(Texts(lines[cur..ins])) == meaning(done)
    ensures meaning(Texts(lines[cur..ins + 1])) == meaning(done + [lines[ins].text])
  {
    hide Compositional, Texts;
    TextsSnoc(lines, cur, ins);
    var found, x := Texts(lines[cur..ins]), [lines[ins].text];
    Replace(meaning, [], found, done, x);
    assert [] + found + x == found + x && [] + done + x == done + x;
  }

  /** A comment passed over adds nothing. */
  lemma Skipped<T(!new)>(meaning: seq<string> -> T, lines: seq<Line>, cur: nat, ins: nat, done: seq<string>)
    requires Compositional(meaning) && CommentsNeutral(meaning, lines)
    requires cur <= ins < |lines| && lines[ins].comment && meaning(Texts(lines[cur..ins])) == meaning(done)
    ensures meaning(Texts(lines[cur..ins + 1])) == meaning(done)
  {
    hide Compositional, Texts;
    TextsSnoc(lines, cur, ins);
    assert Neutral(meaning, lines[ins].text);
    var found, x := Texts(lines[cur..ins]), [lines[ins].text];
    Replace(meaning, found, x, [], []);
    assert found + x + [] == found + x && found + [] + [] == found;
  }

  lemma SameMeaning<T(!new)>(meaning: seq<string> -> T, lines: seq<Line>, cur: nat, ins: nat, r: Rule, put: seq<Line>, t: Table)
    requires Compositional(meaning) && CommentsNeutral(meaning, lines) && Sound(meaning, r) && cur <= ins <= |lines|
    requires meaning(Texts(lines[cur..ins])) == meaning(Instances(r.find, t)) && Texts(put) == Instances(r.put, t)
    requires forall i :: 0 <= i < |put| ==> !put[i].comment
    ensures
      var lines' := lines[..cur] + put + lines[ins..];
      CommentsNeutral(meaning, lines') && meaning(Texts(lines')) == meaning(Texts(lines))
  {
    hide Compositional, Instances;
    var lines' := lines[..cur] + put + lines[ins..];
    assert meaning(Instances(r.find, t)) == meaning(Instances(r.put, t));
    Replace(meaning, Texts(lines[..cur]), Texts(lines[cur..ins]), Texts(put), Texts(lines[ins..]));
    assert Texts(lines') == Texts(lines[..cur]) + Texts(put) + Texts(lines[ins..]);
    assert Texts(lines) == Texts(lines[..cur]) + Texts(lines[cur..ins]) + Texts(lines[ins..]);
    forall i | 0 <= i < |lines'| && lines'[i].comment ensures Neutral(meaning, lines'[i].text) {
      if i < cur {
        assert lines'[i] == lines[i];
      } else {
        assert lines'[i] == lines[i - cur - |put| + ins];
      }
    }
  }
}
