/** What the operators of Small C come to, in C's own terms, and where its library differs from C
    (Applications/SmallC/code8080.c, Applications/SmallC/8080/crun.asm). */
module Operators {
  import opened Expressions

  /** r is v cut to 16 bits. */
  predicate Cut(r: Word, v: int) {
    (v - r) % 65536 == 0
  }

  /** A word stands for one int of 16 bits, and is that int cut to 16 bits. */
  lemma SignedIs(x: Word)
    ensures -32768 <= Signed(x) < 32768 && Cut(x, Signed(x))
    ensures forall y: Word :: Signed(y) == Signed(x) ==> y == x
  {
  }

  /** No other word is v cut to 16 bits. */
  lemma CutOnce(r: Word, s: Word, v: int)
    requires Cut(r, v) && Cut(s, v)
    ensures r == s
  {
  }

  lemma {:induction false} Multiple(x: int, k: int)
    ensures (65536 * k) % 65536 == 0 && Cut(x % 65536, x)
  {
    assert x == 65536 * (x / 65536) + x % 65536;
  }

  /** Sums, differences and products are those of ints, cut to 16 bits. */
  lemma SumsAre(x: Word, y: Word)
    ensures Cut(Arith(Add, x, y), Signed(x) + Signed(y))
    ensures Cut(Arith(Sub, x, y), Signed(x) - Signed(y))
    ensures Arith(Add, Arith(Sub, x, y), y) == x
  {
  }

  lemma ProductIs(x: Word, y: Word)
    ensures Cut(Arith(Mul, x, y), Signed(x) * Signed(y))
  {
    var a, b := if x < 32768 then 0 else 1, if y < 32768 then 0 else 1;
    var p: int, q: int := x, y;
    assert Signed(x) == p - 65536 * a && Signed(y) == q - 65536 * b;
    assert (p - 65536 * a) * (q - 65536 * b) == p * q - 65536 * (a * q + b * p - 65536 * (a * b));
    Multiple(p * q, a * q + b * p - 65536 * (a * b));
    var r: int := Arith(Mul, x, y);
    CutLess(r, p * q, a * q + b * p - 65536 * (a * b));
  }

  lemma CutLess(r: Word, v: int, k: int)
    requires Cut(r, v)
    ensures Cut(r, v - 65536 * k)
  {
    assert v - r == 65536 * ((v - r) / 65536);
    assert v - 65536 * k - r == 65536 * ((v - r) / 65536 - k);
    Multiple(0, (v - r) / 65536 - k);
  }

  /** Division rounds towards zero; the one quotient that is not an int of 16 bits is cut. */
  lemma DivisionIs(x: Word, y: Word)
    requires y != 0
    ensures
      var a, b, q, r := Signed(x), Signed(y), Signed(Arith(Div, x, y)), Signed(Arith(Mod, x, y));
      && (a == -32768 && b == -1 ==> q == -32768 && r == 0)
      && (!(a == -32768 && b == -1) ==> Divides(a, b, q, if b > 0 then r else -r))
      && Magnitude(r) < Magnitude(b)
  {
    hide Signed, Quotient, Remainder, Magnitude, Divides, Arith;
    var a, b := Signed(x), Signed(y);
    Range(x, y);
    QuotientValue(x, y);
    RemainderValue(x, y);
    Rounds(a, b);
    Sizes(a, b);
    MinusOne();
  }

  lemma Range(x: Word, y: Word)
    ensures -32768 <= Signed(x) < 32768 && -32768 <= Signed(y) < 32768 && (y != 0 ==> Signed(y) != 0)
  {
  }

  lemma QuotientValue(x: Word, y: Word)
    requires y != 0
    ensures var a, b := Signed(x), Signed(y);
      Signed(Arith(Div, x, y)) == if a == -32768 && b == -1 then -32768 else Quotient(a, b)
  {
    hide Quotient, Signed, Arith, Divides;
    DivMod(x, y);
    Range(x, y);
    Rounds(Signed(x), Signed(y));
    MinusOne();
    if !(Signed(x) == -32768 && Signed(y) == -1) {
      Back(Quotient(Signed(x), Signed(y)));
    }
  }

  lemma RemainderValue(x: Word, y: Word)
    requires y != 0
    ensures Signed(Arith(Mod, x, y)) == Remainder(Signed(x), Signed(y))
  {
    hide Remainder, Signed, Arith, Magnitude;
    DivMod(x, y);
    Range(x, y);
    Sizes(Signed(x), Signed(y));
    Back(Remainder(Signed(x), Signed(y)));
  }

  lemma DivMod(x: Word, y: Word)
    ensures Arith(Div, x, y) == Quotient(Signed(x), Signed(y)) % 65536 && Arith(Mod, x, y) == Remainder(Signed(x), Signed(y)) % 65536
  {
  }

  lemma MinusOne()
    ensures Signed(32768) == -32768 && Quotient(-32768, -1) == 32768 && Remainder(-32768, -1) == 0
    ensures Signed(0) == 0 && Signed(1) == 1 && Magnitude(-1) == 1 && Magnitude(0) == 0
  {
  }

  /** The sizes of a remainder and a divisor. */
  lemma Sizes(a: int, b: int)
    requires b != 0 && -32768 <= b < 32768
    ensures Magnitude(Remainder(a, b)) < Magnitude(b) <= 32768 && -32768 <= Remainder(a, b) < 32768
    ensures Signed(0) == 0
  {
  }

  /** Division of ints of 16 bits: C's remainder is the library's, or minus that for a negative divisor. */
  lemma Rounds(a: int, b: int)
    requires b != 0 && -32768 <= a < 32768 && -32768 <= b < 32768
    ensures
      var q, r := Quotient(a, b), Remainder(a, b);
      Divides(a, b, q, if b > 0 then r else -r) && if a == -32768 && b == -1 then q == 32768 else -32768 <= q < 32768
  {
    hide Quotient, Magnitude, Remainder;
    QuotientIs(a, b);
    var m, n := Magnitude(a), Magnitude(b);
    var k: int, l: int := m / n, m % n;
    Parts(m, n);
    ByOne(m, n);
    var q := Quotient(a, b);
    Signs(a, b, k, n, q);
    if k == 32768 {
      SmallFactor(m, n, k, l);
    }
    RoundsWith(a, b, k, l, k * n, q, q * b, Remainder(a, b));
  }

  lemma QuotientIs(a: int, b: int)
    requires b != 0
    ensures var k: int := Magnitude(a) / Magnitude(b); Quotient(a, b) == if (a < 0) == (b < 0) then k else -k
    ensures var l: int := Magnitude(a) % Magnitude(b); Remainder(a, b) == if (a < 0) == (b < 0) then l else -l
    ensures -32768 <= a < 32768 ==> Magnitude(a) <= 32768
    ensures Magnitude(b) > 0
  {
  }

  lemma ByOne(m: nat, n: nat)
    requires n > 0
    ensures n == 1 ==> m / n == m
  {
  }

  lemma RoundsWith(a: int, b: int, k: int, l: int, kn: int, q: int, p: int, r: int)
    requires b != 0 && -32768 <= a < 32768 && -32768 <= b < 32768
    requires Magnitude(a) == kn + l && 0 <= l < Magnitude(b) && 0 <= kn && 0 <= k <= Magnitude(a)
    requires q == (if (a < 0) == (b < 0) then k else -k) && p == (if a < 0 then -kn else kn)
    requires k == 32768 ==> Magnitude(b) == 1
    requires Magnitude(b) == 1 ==> k == Magnitude(a)
    requires p == q * b && r == (if (a < 0) == (b < 0) then l else -l)
    ensures Divides(a, b, q, if b > 0 then r else -r)
    ensures if a == -32768 && b == -1 then q == 32768 else -32768 <= q < 32768
  {
  }

  lemma SmallFactor(m: nat, n: nat, k: nat, l: nat)
    requires n >= 1 && m == k * n + l && k == m > 0
    ensures n == 1
  {
    Grows(k, n - 1);
  }

  lemma Grows(k: nat, n: nat)
    ensures k * (n + 1) == k * n + k && k * n >= 0 && (k > 0 && n > 0 ==> k * n > 0)
  {
  }

  lemma Parts(m: nat, n: nat)
    requires n > 0
    ensures m == m / n * n + m % n && 0 <= m % n < n && 0 <= m / n <= m
  {
    var k: nat := m / n;
    assert m == n * k + m % n;
    Grows(k, n - 1);
  }

  lemma Signs(a: int, b: int, k: int, n: nat, q: int)
    requires b != 0 && n == Magnitude(b) && q == if (a < 0) == (b < 0) then k else -k
    ensures q * b == if a < 0 then -(k * n) else k * n
  {
  }

  /** An int of 16 bits cut to 16 bits is that int. */
  lemma Back(v: int)
    requires -32768 <= v < 32768
    ensures Signed(v % 65536) == v
  {
  }

  /** So the remainder is C's just if it is 0 or the divisor is positive: of 7 by -2 it is -1 where C has 1. */
  lemma RemainderSign(x: Word, y: Word, q: int, m: int)
    requires y != 0 && Divides(Signed(x), Signed(y), q, m)
    ensures Signed(Arith(Mod, x, y)) == m <==> Signed(y) > 0 || m == 0
    ensures Signed(Arith(Mod, 7, 65534)) == -1 && Divides(7, -2, -3, 1)
  {
    hide Divides, Signed, Magnitude, Arith, Quotient, Remainder;
    var a, b := Signed(x), Signed(y);
    Range(x, y);
    RemainderValue(x, y);
    Rounds(a, b);
    var r := Remainder(a, b);
    DividesOnce(a, b, q, m, Quotient(a, b), if b > 0 then r else -r);
    SevenByTwo();
  }

  lemma SevenByTwo()
    ensures Signed(Arith(Mod, 7, 65534)) == -1 && Divides(7, -2, -3, 1)
  {
  }

  /** Shifts multiply by and divide by powers of two; to the right the sign is kept and rounding is downwards. */
  lemma {:induction false} ShiftLeftIs(x: Word, n: nat)
    ensures Cut(ShiftLeft(x, n), x * Power(n))
    decreases n
  {
    hide Cut;
    if n == 0 {
      Whole(x);
    } else {
      ShiftLeftIs(x * 2 % 65536, n - 1);
      Doubled(x, x * 2 % 65536, Power(n - 1), ShiftLeft(x, n));
    }
  }

  lemma Whole(x: Word)
    ensures Cut(x, x * 1)
  {
  }

  lemma Doubled(x: Word, y: Word, p: int, r: Word)
    requires y == x * 2 % 65536 && Cut(r, y * p)
    ensures Cut(r, x * (2 * p))
  {
    var v: int, w: int, h: int := x, y, if x < 32768 then 0 else 1;
    Spread(v, w, h, p);
    CutLess(r, w * p, -(h * p));
  }

  lemma Spread(v: int, w: int, h: int, p: int)
    requires v * 2 == 65536 * h + w
    ensures v * (2 * p) == w * p - 65536 * (-(h * p))
  {
    assert v * (2 * p) == (v * 2) * p == (65536 * h + w) * p;
  }

  lemma {:induction false} ShiftRightIs(x: Word, n: nat)
    ensures Signed(ShiftRight(x, n)) == Signed(x) / Power(n)
    decreases n
  {
    if n > 0 {
      var h := Signed(x) / 2;
      Back(h);
      ShiftRightIs(h % 65536, n - 1);
      HalfOf(Signed(x), Power(n - 1));
    }
  }

  lemma HalfOf(v: int, p: nat)
    requires p >= 1
    ensures v / 2 / p == v / (2 * p)
  {
    var h, q := v / 2, v / (2 * p);
    var r := v - 2 * p * q;
    assert v == 2 * p * q + r && 0 <= r < 2 * p;
    assert h == p * q + r / 2;
    Unique(h, p, q, r / 2);
  }

  lemma Unique(h: int, p: nat, q: int, r: int)
    requires p >= 1 && h == p * q + r && 0 <= r < p
    ensures h / p == q
  {
    var d: int := h / p - q;
    assert h == p * (h / p) + h % p && 0 <= h % p < p;
    assert p * d == r - h % p;
    Between(p, d);
  }

  lemma Between(p: int, d: int)
    requires -p < p * d < p || -p < d * p < p
    ensures d == 0
  {
    if d != 0 {
      Far(p, d);
    }
  }

  lemma Far(p: int, d: int)
    requires p >= 1 && d != 0
    ensures p * d >= p || p * d <= -p
  {
    if d > 0 {
      Grows(p, d - 1);
    } else {
      Grows(p, -d - 1);
      assert p * (-d) == -(p * d);
    }
  }

  lemma ShiftsAre(x: Word, y: Word)
    ensures var n := y % 256;
      n <= 128 ==> Cut(Arith(Shl, x, y), x * Power(n)) && Signed(Arith(Shr, x, y)) == Signed(x) / Power(n)
    ensures y % 256 > 128 ==> Arith(Shl, x, y) == Arith(Shr, x, y) == x
  {
    hide Power, ShiftLeft, ShiftRight, Cut, Signed;
    ShiftLeftIs(x, Shifts(y));
    ShiftRightIs(x, Shifts(y));
    NoShift(x);
  }

  lemma NoShift(x: Word)
    ensures ShiftLeft(x, 0) == ShiftRight(x, 0) == x
  {
  }

  /** Comparisons give 0 or 1.  They go by the sign of the difference, so that they are right exactly when it is an int
      of 16 bits: 30000 passes for less than -30000. */
  lemma ComparisonsAre(x: Word, y: Word)
    ensures
      var a, b := Signed(x), Signed(y);
      && Arith(Eq, x, y) == (if a == b then 1 else 0) && Arith(Ne, x, y) == (if a != b then 1 else 0)
      && (Arith(Lt, x, y) == (if a < b then 1 else 0) <==> -32768 <= a - b < 32768)
      && (Arith(Le, x, y) == (if a <= b then 1 else 0) <==> -32768 <= a - b < 32768)
      && (Arith(Ge, x, y) == (if a >= b then 1 else 0) <==> -32768 <= a - b < 32768)
      && (Arith(Gt, x, y) == (if a > b then 1 else 0) <==> -32768 <= b - a < 32768)
    ensures Arith(Lt, x, y) + Arith(Eq, x, y) + Arith(Gt, x, y) == 1 <==> Signed(x) - Signed(y) != 32768 && Signed(y) - Signed(x) != 32768
    ensures Arith(Lt, 30000, 35536) == 1 && Signed(35536) == -30000
  {
  }

  /** Bit i of x. */
  predicate Bit(x: nat, i: nat) {
    x / Power(i) % 2 == 1
  }

  lemma {:induction false} BitsAre(g: Gate, x: nat, y: nat, k: nat, i: nat)
    requires i < k
    ensures Bit(Bits(g, x, y, k), i) <==> Output(g, Bit(x, i), Bit(y, i))
    decreases k
  {
    var rest := Bits(g, x / 2, y / 2, k - 1);
    var r := Bits(g, x, y, k);
    assert r / 2 == rest && (r % 2 == 1 <==> Output(g, x % 2 == 1, y % 2 == 1));
    if i > 0 {
      BitsAre(g, x / 2, y / 2, k - 1, i - 1);
      HalfOf(r, Power(i - 1));
      HalfOf(x, Power(i - 1));
      HalfOf(y, Power(i - 1));
    }
  }

  /** And, or and exclusive or work bit by bit. */
  lemma BitwiseIs(x: Word, y: Word, i: nat)
    requires i < 16
    ensures Bit(Arith(And, x, y), i) <==> Bit(x, i) && Bit(y, i)
    ensures Bit(Arith(Or, x, y), i) <==> Bit(x, i) || Bit(y, i)
    ensures Bit(Arith(Xor, x, y), i) <==> Bit(x, i) != Bit(y, i)
  {
    BitsAre(AndGate, x, y, 16, i);
    BitsAre(OrGate, x, y, 16, i);
    BitsAre(XorGate, x, y, 16, i);
  }

  /** The bits of a word tell it from every other. */
  lemma {:induction false} BitsTell(x: nat, y: nat, k: nat)
    requires x < Power(k) && y < Power(k) && forall i :: 0 <= i < k ==> (Bit(x, i) <==> Bit(y, i))
    ensures x == y
    decreases k
  {
    if k > 0 {
      forall i | 0 <= i < k - 1 ensures Bit(x / 2, i) <==> Bit(y / 2, i) {
        HalfOf(x, Power(i));
        HalfOf(y, Power(i));
        assert Bit(x, i + 1) <==> Bit(y, i + 1);
      }
      BitsTell(x / 2, y / 2, k - 1);
      assert Bit(x, 0) <==> Bit(y, 0);
    }
  }

  /** Minus, complement and not. */
  lemma UnaryAre(x: Word, i: nat)
    requires i < 16
    ensures Cut(UnaryValue(Neg, x), -Signed(x))
    ensures Bit(UnaryValue(Com, x), i) <==> !Bit(x, i)
    ensures UnaryValue(Not, x) == if x == 0 then 1 else 0
  {
    hide Power, Bit;
    Sixteen();
    Complement(x, 16, i);
  }

  lemma Sixteen()
    ensures Power(16) == 65536
  {
    assert Power(4) == 16 && Power(8) == 256 && Power(12) == 4096;
  }

  lemma {:induction false} Complement(x: nat, k: nat, i: nat)
    requires x < Power(k) && i < k
    ensures Bit(Power(k) - 1 - x, i) <==> !Bit(x, i)
    decreases k
  {
    hide Bit;
    var c := Power(k) - 1 - x;
    assert c / 2 == Power(k - 1) - 1 - x / 2 && c % 2 == 1 - x % 2;
    BitNext(c, i);
    BitNext(x, i);
    if i > 0 {
      Complement(x / 2, k - 1, i - 1);
    }
  }

  lemma BitNext(x: nat, i: nat)
    ensures if i == 0 then Bit(x, i) <==> x % 2 == 1 else Bit(x, i) <==> Bit(x / 2, i - 1)
  {
    if i > 0 {
      HalfOf(x, Power(i - 1));
    }
  }

  /** What r has to be for x op y, all three taken as ints of 16 bits. */
  ghost predicate Means(op: Op, x: Word, y: Word, r: Word) {
    var a, b, c := Signed(x), Signed(y), Signed(r);
    match op
    case LogOr => r == if x != 0 || y != 0 then 1 else 0
    case LogAnd => r == if x != 0 && y != 0 then 1 else 0
    case Or => forall i :: 0 <= i < 16 ==> (Bit(r, i) <==> Bit(x, i) || Bit(y, i))
    case Xor => forall i :: 0 <= i < 16 ==> (Bit(r, i) <==> Bit(x, i) != Bit(y, i))
    case And => forall i :: 0 <= i < 16 ==> (Bit(r, i) <==> Bit(x, i) && Bit(y, i))
    case Eq => r == if a == b then 1 else 0
    case Ne => r == if a != b then 1 else 0
    case Lt => -32768 <= a - b < 32768 ==> r == if a < b then 1 else 0
    case Le => -32768 <= a - b < 32768 ==> r == if a <= b then 1 else 0
    case Gt => -32768 <= b - a < 32768 ==> r == if a > b then 1 else 0
    case Ge => -32768 <= a - b < 32768 ==> r == if a >= b then 1 else 0
    case Shr => y <= 128 ==> c == a / Power(y)
    case Shl => y <= 128 ==> Cut(r, x * Power(y))
    case Add => Cut(r, a + b)
    case Sub => Cut(r, a - b)
    case Mul => Cut(r, a * b)
    case Div => b != 0 ==> exists q, m :: Cut(r, q) && Divides(a, b, q, m)
    case Mod => b != 0 ==> exists q, m :: Divides(a, b, q, m) && Cut(r, if b > 0 then m else -m)
  }

  /** q is the quotient and m the remainder of a by b. */
  predicate Divides(a: int, b: int, q: int, m: int) {
    q * b + m == a && Magnitude(m) < Magnitude(b) && (m != 0 ==> (m < 0) == (a < 0))
  }

  lemma ArithMeans(op: Op, x: Word, y: Word)
    ensures Means(op, x, y, Arith(op, x, y))
  {
    hide Means, Arith;
    match op
    case Or => BitsMean(op, x, y);
    case Xor => BitsMean(op, x, y);
    case And => BitsMean(op, x, y);
    case Shr => ShiftsMean(op, x, y);
    case Shl => ShiftsMean(op, x, y);
    case Add => SumsMean(op, x, y);
    case Sub => SumsMean(op, x, y);
    case Mul => SumsMean(op, x, y);
    case Div => DivMeans(x, y);
    case Mod => ModMeans(x, y);
    case _ => ComparisonsMean(op, x, y);
  }

  lemma BitsMean(op: Op, x: Word, y: Word)
    requires op.Or? || op.Xor? || op.And?
    ensures Means(op, x, y, Arith(op, x, y))
  {
    hide Bit, Arith, Signed;
    forall i | 0 <= i < 16 {
      BitwiseIs(x, y, i);
    }
  }

  lemma ShiftsMean(op: Op, x: Word, y: Word)
    requires op.Shr? || op.Shl?
    ensures Means(op, x, y, Arith(op, x, y))
  {
    hide Cut, Arith, Signed, Power;
    ShiftsAre(x, y);
    assert y <= 128 ==> y % 256 == y;
  }

  lemma SumsMean(op: Op, x: Word, y: Word)
    requires op.Add? || op.Sub? || op.Mul?
    ensures Means(op, x, y, Arith(op, x, y))
  {
    hide Cut, Arith, Signed;
    SumsAre(x, y);
    ProductIs(x, y);
  }

  lemma ComparisonsMean(op: Op, x: Word, y: Word)
    requires op.LogOr? || op.LogAnd? || op.Eq? || op.Ne? || op.Lt? || op.Le? || op.Gt? || op.Ge?
    ensures Means(op, x, y, Arith(op, x, y))
  {
    hide Signed, Negative;
    ComparisonsAre(x, y);
  }

  lemma DivMeans(x: Word, y: Word)
    ensures Means(Div, x, y, Arith(Div, x, y))
  {
    hide Cut, Divides, Quotient, Remainder, Arith, Signed;
    Divided(x, y);
  }

  lemma ModMeans(x: Word, y: Word)
    ensures Means(Mod, x, y, Arith(Mod, x, y))
  {
    hide Cut, Divides, Quotient, Remainder, Arith, Signed;
    Divided(x, y);
    if Signed(y) != 0 {
      var r := Remainder(Signed(x), Signed(y));
      var m := if Signed(y) > 0 then r else -r;
      assert Divides(Signed(x), Signed(y), Quotient(Signed(x), Signed(y)), m) && r == if Signed(y) > 0 then m else -m;
    }
  }

  lemma Divided(x: Word, y: Word)
    ensures Signed(y) != 0 ==>
      var a, b := Signed(x), Signed(y);
      var q, r := Quotient(a, b), Remainder(a, b);
      && Divides(a, b, q, if b > 0 then r else -r) && Cut(Arith(Div, x, y), q) && Cut(Arith(Mod, x, y), r)
  {
    if Signed(y) != 0 {
      var a, b := Signed(x), Signed(y);
      hide Quotient, Remainder, Magnitude, Divides;
      Rounds(a, b);
      Multiple(Quotient(a, b), 0);
      Multiple(Remainder(a, b), 0);
    }
  }

  /** The quotient and the remainder are the only ones. */
  lemma DividesOnce(a: int, b: int, q: int, m: int, p: int, l: int)
    requires b != 0 && Divides(a, b, q, m) && Divides(a, b, p, l)
    ensures q == p && m == l
  {
    hide Divides;
    var d := q - p;
    Differ(a, b, q, m, p, l);
    if b > 0 {
      Between(b, d);
    } else {
      assert (-b) * d == m - l;
      Between(-b, d);
    }
  }

  lemma Differ(a: int, b: int, q: int, m: int, p: int, l: int)
    requires b != 0 && Divides(a, b, q, m) && Divides(a, b, p, l)
    ensures b * (q - p) == l - m && Magnitude(l - m) < Magnitude(b)
  {
    assert b * (q - p) == q * b - p * b;
  }

  predicate UnaryMeans(u: Unary, x: Word, r: Word) {
    match u
    case Neg => Cut(r, -Signed(x))
    case Com => forall i :: 0 <= i < 16 ==> (Bit(r, i) <==> !Bit(x, i))
    case Not => r == if x == 0 then 1 else 0
  }

  lemma UnaryValueMeans(u: Unary, x: Word)
    ensures UnaryMeans(u, x, UnaryValue(u, x))
  {
    hide Bit, Cut;
    forall i | 0 <= i < 16 {
      UnaryAre(x, i);
    }
    UnaryAre(x, 0);
  }
}
