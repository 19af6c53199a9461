/** The run-length coded swap area of single-tasking systems (Kernel/single.c): a process is packed downwards
    from ramtop, as a stack of frames, and unpacked from there. */
module RunLength {
  type Byte = n: int | 0 <= n < 256
  type Word = n: int | 0 <= n < 65536

  const LCODE: Byte := 0xC7
  const LCODE_QUOTED: Byte := 0
  const LCODE_END: Byte := 1

  /** How many of the first bytes are the same, up to 255. */
  function RunLen(d: seq<Byte>, n: nat): (r: nat)
    requires 1 <= n <= |d| && n <= 255
    ensures n <= r <= |d| && r <= 255
    ensures forall i :: n <= i < r ==> d[i] == d[0]
    ensures r == |d| || r == 255 || d[r] != d[0]
    decreases |d| - n
  {
    if n < |d| && n < 255 && d[n] == d[0] then RunLen(d, n + 1) else n
  }

  /** A run worth a record. */
  predicate Runs(d: seq<Byte>) {
    |d| > 4 && d[0] == d[1] && d[0] == d[2]
  }

  /** How many bytes the next record stands for, and the record in the order it is written. */
  function Span(d: seq<Byte>): (n: nat)
    requires d != []
    ensures 1 <= n <= |d| && n <= 255
  {
    if Runs(d) then RunLen(d, 3) else 1
  }

  function Code(d: seq<Byte>): (r: seq<Byte>)
    requires d != []
    ensures 1 <= |r| <= 3 && |r| <= 2 * Span(d)
  {
    if Runs(d) then [LCODE, RunLen(d, 3), d[0]]
    else if d[0] == LCODE then [LCODE, LCODE_QUOTED] else [d[0]]
  }

  /** The bytes of a frame's body in the order they are written. */
  function Encode(d: seq<Byte>): seq<Byte>
    decreases |d|
  {
    if d == [] then [] else Code(d) + Encode(d[Span(d)..])
  }

  /** n copies of c. */
  function Copies(c: Byte, n: nat): seq<Byte> {
    seq(n, _ => c)
  }

  /** What unpack makes of a stretch of bytes when it is asked for l: it has them all, it meets an end marker
      first, a run goes past the last of them, or the stretch gives out.  out is what it has by then. */
  datatype Fate = Fine(out: seq<Byte>) | Short(out: seq<Byte>) | Over(out: seq<Byte>) | Beyond(out: seq<Byte>)

  function Behind(a: seq<Byte>, f: Fate): Fate {
    match f
    case Fine(out) => Fine(a + out)
    case Short(out) => Short(a + out)
    case Over(out) => Over(a + out)
    case Beyond(out) => Beyond(a + out)
  }

  function Decode(e: seq<Byte>, l: nat): Fate
    decreases |e|
  {
    if l == 0 then Fine([])
    else if e == [] then Beyond([])
    else if e[0] != LCODE then Behind([e[0]], Decode(e[1..], l - 1))
    else if |e| < 2 then Beyond([])
    else if e[1] == LCODE_QUOTED then Behind([LCODE], Decode(e[2..], l - 1))
    else if e[1] == LCODE_END then Short([])
    else if |e| < 3 then Beyond([])
    else if e[1] > l then Over(Copies(e[2], l))
    else Behind(Copies(e[2], e[1]), Decode(e[3..], l - e[1]))
  }

  lemma DecodeStep(e: seq<Byte>, l: nat)
    requires l > 0
    ensures e == [] ==> Decode(e, l) == Beyond([])
    ensures |e| > 0 && e[0] != LCODE ==> Decode(e, l) == Behind([e[0]], Decode(e[1..], l - 1))
    ensures |e| == 1 && e[0] == LCODE ==> Decode(e, l) == Beyond([])
    ensures |e| > 1 && e[0] == LCODE && e[1] == LCODE_QUOTED ==> Decode(e, l) == Behind([LCODE], Decode(e[2..], l - 1))
    ensures |e| > 1 && e[0] == LCODE && e[1] == LCODE_END ==> Decode(e, l).Short?
    ensures |e| == 2 && e[0] == LCODE && e[1] > 1 ==> Decode(e, l) == Beyond([])
    ensures |e| > 2 && e[0] == LCODE && e[1] > 1 && e[1] > l ==> Decode(e, l).Over?
    ensures |e| > 2 && e[0] == LCODE && 1 < e[1] <= l ==> Decode(e, l) == Behind(Copies(e[2], e[1]), Decode(e[3..], l - e[1]))
  {
  }

  lemma AllDone(e: seq<Byte>)
    ensures Decode(e, 0) == Fine([])
  {
  }

  /** One record, whatever stands behind it. */
  lemma DecodeRecord(d: seq<Byte>, rest: seq<Byte>, l: nat)
    requires d != []
    ensures l >= Span(d) ==> Decode(Code(d) + rest, l) == Behind(d[..Span(d)], Decode(rest, l - Span(d)))
    ensures 0 < l < Span(d) ==> Decode(Code(d) + rest, l) == Over(Copies(d[0], l))
  {
    var e := Code(d) + rest;
    if Runs(d) {
      assert e[3..] == rest && e[1] == Span(d) && e[2] == d[0];
      assert d[..Span(d)] == Copies(d[0], Span(d));
    } else if d[0] == LCODE {
      assert e[2..] == rest;
      assert d[..1] == [LCODE];
    } else {
      assert e[1..] == rest;
      assert d[..1] == [d[0]];
    }
  }

  lemma EncodeStep(d: seq<Byte>, tail: seq<Byte>)
    requires d != []
    ensures Encode(d) + tail == Code(d) + (Encode(d[Span(d)..]) + tail)
  {
  }

  /** Decoding gives back every input, runs of the escape byte included, whatever stands behind the frame. */
  lemma {:induction false} RoundTrip(d: seq<Byte>, tail: seq<Byte>)
    ensures Decode(Encode(d) + tail, |d|) == Fine(d)
    decreases |d|
  {
    hide Span, Code;
    if d != [] {
      var n := Span(d);
      RoundTrip(d[n..], tail);
      EncodeStep(d, tail);
      DecodeRecord(d, Encode(d[n..]) + tail, |d|);
      assert d == d[..n] + d[n..];
    }
  }

  /** The last record of a frame. */
  function LastRecord(d: seq<Byte>): (r: seq<Byte>)
    requires d != []
    ensures 1 <= |r| <= 3
    decreases |d|
  {
    if Span(d) == |d| then Code(d) else LastRecord(d[Span(d)..])
  }

  lemma LastStep(d: seq<Byte>)
    requires d != []
    ensures Span(d) < |d| ==> LastRecord(d) == LastRecord(d[Span(d)..])
    ensures Span(d) == |d| ==> (|LastRecord(d)| == 3 <==> Runs(d))
    ensures !Runs(d) ==> Span(d) == 1
  {
  }

  /** Asked for one byte less than there are, unpack goes past the end unless the last record is a byte alone. */
  lemma {:induction false} OneLess(d: seq<Byte>, tail: seq<Byte>)
    requires d != []
    ensures |LastRecord(d)| < 3 ==> Decode(Encode(d) + tail, |d| - 1) == Fine(d[..|d| - 1])
    ensures |LastRecord(d)| == 3 ==> Decode(Encode(d) + tail, |d| - 1).Over?
    decreases |d|
  {
    hide Span, Code, Encode, Decode, LastRecord;
    var n := Span(d);
    EncodeStep(d, tail);
    LastStep(d);
    if |d| == 1 {
      AllDone(Encode(d) + tail);
    } else {
      DecodeRecord(d, Encode(d[n..]) + tail, |d| - 1);
      if n < |d| {
        OneLess(d[n..], tail);
        assert d[..n] + d[n..][..|d| - n - 1] == d[..|d| - 1];
      }
    }
  }

  /** Asked for more than there are, it meets the end marker. */
  lemma {:induction false} OneMore(d: seq<Byte>, tail: seq<Byte>, l: nat)
    requires l > |d|
    ensures Decode(Encode(d) + ([LCODE, LCODE_END] + tail), l).Short?
    decreases |d|
  {
    var e := [LCODE, LCODE_END] + tail;
    if d == [] {
      assert Encode(d) + e == e;
    } else {
      EncodeStep(d, e);
      DecodeRecord(d, Encode(d[Span(d)..]) + e, l);
      OneMore(d[Span(d)..], tail, l - Span(d));
    }
  }

  predicate All(d: seq<Byte>, c: Byte) {
    forall i :: 0 <= i < |d| ==> d[i] == c
  }

  /** The last record of a run. */
  lemma {:induction false} LastOfRun(d: seq<Byte>, c: Byte)
    requires d != [] && All(d, c)
    ensures |LastRecord(d)| < 3 <==> 1 <= |d| % 255 <= 4
    decreases |d|
  {
    hide RunLen, Code, LastRecord;
    RunSpan(d, c);
    if Span(d) < |d| {
      LastOfRun(d[Span(d)..], c);
      if |d| > 255 {
        assert |d| % 255 == (|d| - 255) % 255;
      }
    }
    LastStep(d);
  }

  lemma RunSpan(d: seq<Byte>, c: Byte)
    requires d != [] && All(d, c)
    ensures Span(d) == if |d| <= 4 then 1 else if |d| <= 255 then |d| else 255
  {
  }

  /** do_swap_in starts at the byte above the frame.  That restores the data just if the byte is all there is in
      them, and they do not end in a run record; or if it is the escape byte, and turns the head of the code into
      itself. */
  predicate Restores(x: Byte, d: seq<Byte>) {
    d == [] || if x == LCODE then Escaped(d) else All(d, x) && 1 <= |d| % 255 <= 4
  }

  /** An escape byte in front makes the first code bytes a count and a byte. */
  predicate Escaped(d: seq<Byte>)
    decreases |d|
  {
    || (|d| >= 2 && d[0] == 2 && d[1] == 2 && !Runs(d))
    || (|d| in {3, 4} && All(d, 3))
    || (|d| == 4 && All(d, 4))
    || (|d| >= 200 && All(d[..200], 200) && (|d| == 200 || d[200] != 200))
    || (|d| >= 199 && All(d[..199], LCODE) && (|d| == 199 || (d[199] != LCODE && Escaped(d[199..]))))
  }

  /** d is what the fate says, or its beginnings say that it cannot be. */
  predicate Tells(f: Fate, d: seq<Byte>, yes: bool) {
    && (f.Fine? ==> (f.out == d <==> yes))
    && (!f.Fine? ==> !yes)
    && (f.Beyond? ==> !(f.out <= d))
  }

  /** Any first byte but the escape byte is taken for data. */
  lemma PlainByte(x: Byte, d: seq<Byte>, tail: seq<Byte>)
    requires x != LCODE && d != []
    ensures Tells(Decode([x] + (Encode(d) + tail), |d|), d, Restores(x, d))
  {
    var e := [x] + (Encode(d) + tail);
    assert e[1..] == Encode(d) + tail;
    OneLess(d, tail);
    if All(d, x) {
      LastOfRun(d, x);
    }
    var shifted := [x] + d[..|d| - 1];
    assert shifted == d <==> All(d, x) by {
      if shifted == d {
        Shifted(x, d, |d|);
      }
    }
  }

  lemma {:induction false} Shifted(x: Byte, d: seq<Byte>, k: nat)
    requires k <= |d| && d != [] && [x] + d[..|d| - 1] == d
    ensures forall i :: 0 <= i < k ==> d[i] == x
    decreases k
  {
    if k > 0 {
      Shifted(x, d, k - 1);
      assert d[k - 1] == ([x] + d[..|d| - 1])[k - 1];
    }
  }

  /** A byte that is wrong stays wrong. */
  lemma Differs(f: Fate, d: seq<Byte>, i: nat)
    requires i < |f.out| && i < |d| && f.out[i] != d[i]
    ensures Tells(f, d, false)
  {
  }

  /** The escape byte in front of a byte alone: the byte is a count for the code byte after it. */
  lemma EscapedByte(d: seq<Byte>, tail: seq<Byte>)
    requires d != [] && !Runs(d) && d[0] != LCODE
    ensures Tells(Decode([LCODE] + (Encode(d) + ([LCODE, LCODE_END] + tail)), |d|), d, Escaped(d))
  {
    hide Encode, Tells, Escaped, Code;
    var end := [LCODE, LCODE_END] + tail;
    var k, e, rest := d[0], [LCODE] + (Encode(d) + end), Encode(d[1..]) + end;
    SecondByte(d, end);
    assert e[0] == LCODE && e[1] == k && e[2..] == rest;
    var f := Decode(e, |d|);
    if k == LCODE_QUOTED {
      assert f == Behind([LCODE], Decode(rest, |d| - 1));
      Differs(f, d, 0);
      NotEscaped(d);
    } else if k == LCODE_END || k > |d| {
      FarCount(d, e);
    } else {
      CountedByte(d, tail, e);
    }
  }

  /** Bytes that are no count the escape byte could use. */
  lemma NotEscaped(d: seq<Byte>)
    requires d != [] && !Runs(d) && d[0] != LCODE
    ensures Escaped(d) ==> 2 <= d[0] <= 4 && d[0] <= |d| && d[1] == d[0] && !Runs(d[1..]) && (d[0] > 2 ==> All(d, d[0]) && |d| <= 4)
  {
    assert |d| >= 200 ==> d[..200][0] == d[0] && d[..200][1] == d[1] && d[..200][2] == d[2];
    assert |d| >= 199 ==> d[..199][0] == d[0];
  }

  lemma FarCount(d: seq<Byte>, e: seq<Byte>)
    requires d != [] && !Runs(d) && d[0] != LCODE && (d[0] == LCODE_END || d[0] > |d|)
    requires |e| >= 3 && e[0] == LCODE && e[1] == d[0]
    ensures Tells(Decode(e, |d|), d, Escaped(d))
  {
    hide Escaped;
    NotEscaped(d);
  }

  lemma CountedByte(d: seq<Byte>, tail: seq<Byte>, e: seq<Byte>)
    requires d != [] && !Runs(d) && d[0] != LCODE && 2 <= d[0] <= |d|
    requires |e| >= 3 && e[0] == LCODE && e[1] == d[0] && e[2..] == Encode(d[1..]) + ([LCODE, LCODE_END] + tail)
    ensures Tells(Decode(e, |d|), d, Escaped(d))
  {
    hide Encode, Tells, Escaped, Code;
    var k, end, f := d[0], [LCODE, LCODE_END] + tail, Decode(e, |d|);
    SecondByte(d[1..], end);
    var c := e[2];
    assert c == e[2..][0] && e[3..] == e[2..][1..];
    assert f == Behind(Copies(c, k), Decode(e[3..], |d| - k));
    NotEscaped(d);
    if c != k {
      Differs(f, d, 0);
    } else {
      assert d[1] == k && d[1..][1..] == d[2..];
      TwiceCounted(d, tail, f);
    }
  }

  /** The count is also the byte, and the byte stands twice. */
  lemma TwiceCounted(d: seq<Byte>, tail: seq<Byte>, f: Fate)
    requires |d| >= 2 && !Runs(d) && d[0] != LCODE && 2 <= d[0] <= |d| && d[1] == d[0]
    requires f == Behind(Copies(d[0], d[0]), Decode(Encode(d[2..]) + ([LCODE, LCODE_END] + tail), |d| - d[0]))
    ensures Tells(f, d, Escaped(d))
  {
    hide Encode, Code, Decode;
    var k, end := d[0], [LCODE, LCODE_END] + tail;
    NotEscaped(d);
    if k == 2 {
      RoundTrip(d[2..], end);
      assert Copies(2, 2) + d[2..] == d;
    } else if d[2] != k {
      Differs(f, d, 2);
    } else if k == |d| {
      AllDone(Encode(d[2..]) + end);
      assert |d| == 3 ==> (d == Copies(3, 3) <==> All(d, 3));
      assert |d| == 4 ==> (d == Copies(4, 4) <==> All(d, 4));
    } else {
      assert k == 3 && |d| == 4;
      EncodeStep(d[2..], end);
      DecodeRecord(d[2..], Encode(d[2..][1..]) + end, 1);
      AllDone(Encode(d[2..][1..]) + end);
      assert f == Fine(Copies(3, 3) + d[2..][..1]);
      assert f.out == [3, 3, 3, 3];
    }
  }

  /** What the code of d starts with. */
  lemma SecondByte(d: seq<Byte>, tail: seq<Byte>)
    requires d != []
    ensures (Encode(d) + tail)[0] == if Runs(d) || d[0] == LCODE then LCODE else d[0]
    ensures !Runs(d) && d[0] != LCODE ==> (Encode(d) + tail)[1..] == Encode(d[1..]) + tail
  {
    EncodeStep(d, tail);
  }

  /** A run in front: its escape byte is the count, 199, and its count is the byte. */
  lemma {:induction false} EscapedRun(d: seq<Byte>, tail: seq<Byte>)
    requires Runs(d)
    ensures Tells(Decode([LCODE] + (Encode(d) + ([LCODE, LCODE_END] + tail)), |d|), d, Escaped(d))
    decreases |d|, 1
  {
    hide Encode, Decode, Tells, Escaped, RunLen;
    var n, v, end := Span(d), d[0], [LCODE, LCODE_END] + tail;
    var e, rest := [LCODE] + (Encode(d) + end), [v] + (Encode(d[n..]) + end);
    EncodeStep(d, end);
    assert Encode(d) + end == [LCODE, n, v] + (Encode(d[n..]) + end);
    assert e[0] == LCODE && e[1] == LCODE && e[2] == n && e[3..] == rest;
    var f := Decode(e, |d|);
    DecodeStep(e, |d|);
    RunsEscaped(d);
    if |d| < 199 {
      assert f.Over?;
      Stopped(f, d);
    } else {
      assert f == Behind(Copies(n, 199), Decode(rest, |d| - 199));
      if n != v {
        Differs(f, d, 0);
      } else if n < 199 {
        Differs(f, d, n);
      } else if n == 199 {
        RunOfEscapes(d, tail, f);
      } else {
        assert rest[1..] == Encode(d[n..]) + end;
        DecodeStep(rest, |d| - 199);
        assert Decode(rest, |d| - 199) == Behind([v], Decode(Encode(d[n..]) + end, |d| - 200));
        if n == 200 {
          RoundTrip(d[n..], end);
          assert d == Copies(n, 199) + ([v] + d[n..]);
          Complete(f, d);
        } else {
          OneMore(d[n..], tail, |d| - 200);
          Stopped(f, d);
        }
      }
    }
  }

  lemma Stopped(f: Fate, d: seq<Byte>)
    requires f.Over? || f.Short?
    ensures Tells(f, d, false)
  {
  }

  lemma Complete(f: Fate, d: seq<Byte>)
    requires f == Fine(d)
    ensures Tells(f, d, true)
  {
  }

  /** What RunLen says of a run. */
  lemma RunsEscaped(d: seq<Byte>)
    requires Runs(d)
    ensures var n := Span(d);
      && n == RunLen(d, 3) >= 3 && Code(d) == [LCODE, n, d[0]] && All(d[..n], d[0]) && (n < |d| && n < 255 ==> d[n] != d[0])
      && (Escaped(d) <==> d[0] == n && (n == 200 || (n == 199 && (|d| == 199 || Escaped(d[199..])))))
  {
    assert All(d[..Span(d)], d[0]);
    hide All;
    RunIs(d, 200);
    RunIs(d, 199);
  }

  /** The run in front is k times the byte k. */
  lemma RunIs(d: seq<Byte>, k: Byte)
    requires Runs(d) && 3 <= k < 255
    ensures |d| >= k && All(d[..k], k) && (|d| == k || d[k] != k) <==> d[0] == k && Span(d) == k
  {
    var n := Span(d);
    assert All(d[..n], d[0]);
    if |d| >= k && All(d[..k], k) && (|d| == k || d[k] != k) {
      assert forall i :: 0 <= i < n ==> d[i] == d[..n][i] == d[0];
      assert forall i :: 0 <= i < k ==> d[i] == d[..k][i] == k;
    }
  }

  /** 199 escape bytes in front: the escape byte before them is the escape byte before the rest. */
  lemma {:induction false} RunOfEscapes(d: seq<Byte>, tail: seq<Byte>, f: Fate)
    requires Runs(d) && Span(d) == 199 == d[0]
    requires f == Behind(Copies(199, 199), Decode([LCODE] + (Encode(d[199..]) + ([LCODE, LCODE_END] + tail)), |d| - 199))
    ensures Tells(f, d, Escaped(d))
    decreases |d|, 0
  {
    hide Encode, Decode, Escaped, RunLen, Code;
    RunsEscaped(d);
    var rest := d[199..];
    assert d == Copies(199, 199) + rest;
    if |d| == 199 {
      AllDone([LCODE] + (Encode(rest) + ([LCODE, LCODE_END] + tail)));
    } else {
      EscapeByte(rest, tail);
      var g := Decode([LCODE] + (Encode(rest) + ([LCODE, LCODE_END] + tail)), |rest|);
      assert f.out == Copies(199, 199) + g.out;
      assert g.out == rest <==> f.out == d by {
        assert g.out == f.out[199..] && rest == d[199..];
      }
      if f.out <= d {
        assert g.out == f.out[199..] == d[199..|f.out|] == rest[..|g.out|];
      }
    }
  }

  /** The escape byte in front of a frame. */
  lemma {:induction false} EscapeByte(d: seq<Byte>, tail: seq<Byte>)
    requires d != []
    ensures Tells(Decode([LCODE] + (Encode(d) + ([LCODE, LCODE_END] + tail)), |d|), d, Escaped(d))
    decreases |d|, 2
  {
    if Runs(d) {
      EscapedRun(d, tail);
    } else if d[0] == LCODE {
      EscapedQuote(d, tail);
    } else {
      EscapedByte(d, tail);
    }
  }

  lemma EscapedQuote(d: seq<Byte>, tail: seq<Byte>)
    requires d != [] && !Runs(d) && d[0] == LCODE
    ensures Tells(Decode([LCODE] + (Encode(d) + ([LCODE, LCODE_END] + tail)), |d|), d, Escaped(d))
  {
    hide Encode, Tells;
    var e := [LCODE] + (Encode(d) + ([LCODE, LCODE_END] + tail));
    EncodeStep(d, [LCODE, LCODE_END] + tail);
    assert e[0] == LCODE && e[1] == LCODE && e[2] == LCODE_QUOTED;
    assert |d| >= 200 ==> d[..200][0] == d[0];
    assert |d| >= 199 ==> d[..199][0] == d[0] && d[..199][1] == d[1] && d[..199][2] == d[2];
    var f := Decode(e, |d|);
    if |d| < 199 {
      Stopped(f, d);
    } else {
      Differs(f, d, 0);
    }
  }

  /** From one byte above the frame unpack restores the data exactly when Restores says. */
  lemma StartsTooHigh(x: Byte, d: seq<Byte>, tail: seq<Byte>)
    ensures Tells(Decode([x] + (Encode(d) + ([LCODE, LCODE_END] + tail)), |d|), d, Restores(x, d))
  {
    hide Encode, Escaped;
    if d == [] {
    } else if x == LCODE {
      EscapeByte(d, tail);
    } else {
      PlainByte(x, d, [LCODE, LCODE_END] + tail);
    }
  }

  /** A stray 0 above the frame spoils most programs; sometimes the byte there happens to be right. */
  lemma StrayByte()
    ensures !Restores(0, [1, 2]) && Restores(7, [7, 7]) && Restores(LCODE, [2, 2, 9])
  {
    assert [1, 2][0] == 1 && |[7, 7]| % 255 == 2;
    assert !Runs([2, 2, 9]);
  }

  // ------------------------------------------------------------------ room

  /** Packing d is not refused: gap bytes lie between the pointer and u_top, and each record finds six of them. */
  predicate Fits(d: seq<Byte>, gap: int)
    decreases |d|
  {
    d == [] || (gap >= 6 && Fits(d[Span(d)..], gap - |Code(d)|))
  }

  /** Only the last record matters: six bytes must be left where it starts. */
  lemma {:induction false} FitsExactly(d: seq<Byte>, gap: int)
    requires d != []
    ensures Fits(d, gap) <==> gap >= |Encode(d)| - |LastRecord(d)| + 6
    decreases |d|
  {
    var rest := d[Span(d)..];
    if rest != [] {
      FitsExactly(rest, gap - |Code(d)|);
      LastWithin(rest);
    }
  }

  lemma LastWithin(d: seq<Byte>)
    requires d != []
    ensures |LastRecord(d)| <= |Encode(d)|
    decreases |d|
  {
    if Span(d) < |d| {
      LastWithin(d[Span(d)..]);
    }
  }

  /** A record is at most two bytes for each byte it stands for, so a frame's body is at most twice its input. */
  lemma {:induction false} EncodeLength(d: seq<Byte>)
    ensures d != [] ==> 1 <= |Encode(d)|
    ensures |Encode(d)| <= 2 * |d|
    decreases |d|
  {
    if d != [] {
      EncodeLength(d[Span(d)..]);
    }
  }

  lemma FitsNone(gap: int)
    ensures Fits([], gap)
  {
  }

  /** With room for twice the data and five bytes more, packing is not refused. */
  lemma TwiceFits(d: seq<Byte>, gap: int)
    requires gap >= 2 * |d| + 5
    ensures Fits(d, gap)
  {
    if d != [] {
      FitsExactly(d, gap);
      EncodeLength(d);
    }
  }

  /** The test for six free bytes, in 16 bits. */
  predicate Room(p: Word, utop: Word) {
    (p - utop) % 65536 >= 6
  }

  /** At the start of a frame the test tells whether six bytes are free if and only if ramtop is not u_top itself:
      there the difference wraps. */
  lemma RoomAtStart(ramtop: Word, utop: Word)
    requires utop <= ramtop
    ensures (Room((ramtop - 1) % 65536, utop) <==> ramtop - 1 - utop >= 6) <==> utop < ramtop
  {
  }

  function Pair(lo: int, hi: int): int {
    lo + 256 * hi
  }

  /** e is written downwards from top. */
  predicate Written(mem: seq<Byte>, top: int, e: seq<Byte>) {
    |e| <= top + 1 <= |mem| && forall i :: 0 <= i < |e| ==> ByteBelow(mem, top, i) == e[i]
  }

  function ByteBelow(mem: seq<Byte>, top: int, i: nat): Byte
    requires 0 <= top - i < |mem|
  {
    mem[top - i]
  }

  lemma WrittenMore(mem: seq<Byte>, top: int, e: seq<Byte>, b: Byte)
    requires Written(mem, top, e) && |e| <= top
    ensures Written(mem[top - |e| := b], top, e + [b])
  {
    var mem' := mem[top - |e| := b];
    forall i | 0 <= i < |e| + 1 ensures ByteBelow(mem', top, i) == (e + [b])[i] {
      if i < |e| {
        assert ByteBelow(mem, top, i) == e[i];
      }
    }
  }

  /** d is in memory from s on. */
  predicate Holds(mem: seq<Byte>, s: nat, d: seq<Byte>) {
    s + |d| <= |mem| && mem[s..s + |d|] == d
  }

  lemma HoldsRest(mem: seq<Byte>, s: nat, d: seq<Byte>, n: nat)
    requires Holds(mem, s, d) && n <= |d|
    ensures Holds(mem, s + n, d[n..]) && s + |d| <= |mem|
    ensures forall i :: 0 <= i < |d| ==> mem[s + i] == d[i]
  {
    forall i | 0 <= i < |d| ensures mem[s + i] == d[i] {
      assert mem[s..s + |d|][i] == d[i];
    }
    assert mem[s + n..s + |d|] == mem[s..s + |d|][n..];
  }

  /** What is below is not changed above. */
  lemma HoldsFrame(mem: seq<Byte>, mem': seq<Byte>, s: nat, d: seq<Byte>)
    requires Holds(mem, s, d) && |mem'| == |mem| && forall i :: s <= i < s + |d| ==> mem'[i] == mem[i]
    ensures Holds(mem', s, d)
  {
    assert mem'[s..s + |d|] == mem[s..s + |d|];
  }

  class Machine {
    const mem: array<Byte>
    /** The bottom of the packed area, and the top of the running program. */
    var ramtop: Word
    var utop: Word
    var p: Word

    predicate Shape() {
      mem.Length == 65536
    }

    /** One byte to where p points, and p down. */
    method Push(b: Byte)
      requires Shape()
      modifies this`p, mem
      ensures mem[..] == old(mem[..])[old(p) := b] && p == (old(p) - 1) % 65536
    {
      mem[p] := b;
      p := (p - 1) % 65536;
    }

    /** count, with s at the third byte of a run and l two less than what was left. */
    method Count(s: Word, l: nat, ghost d: seq<Byte>) returns (ct: Byte, s1: nat, l1: nat)
      requires Shape() && |d| >= 3 && 2 <= s && s - 2 + |d| <= 65536 && l == |d| - 2
      requires forall i :: 0 <= i < |d| ==> mem[s - 2 + i] == d[i]
      requires d[0] == d[1] == d[2]
      ensures ct == RunLen(d, 3) && s1 == s - 2 + ct && l1 == |d| + 1 - ct
    {
      var c := mem[s];
      s1, l1 := s + 1, l;
      var n := 3;
      while mem[s1 % 65536] == c && l1 > 1 && n < 255
        invariant 3 <= n <= 255 && n <= |d| && s1 == s - 2 + n && l1 == |d| + 1 - n
        invariant RunLen(d, 3) == RunLen(d, n)
        decreases 255 - n
      {
        assert mem[s - 2 + n] == d[n];
        s1 := s1 + 1;
        n := n + 1;
        l1 := l1 - 1;
      }
      assert n < |d| ==> mem[s - 2 + n] == d[n];
      ct := n;
    }

    /** One turn of the loop of do_swap_out that finds room: the next record, downwards from p. */
    method Pack(s: Word, l: nat, ghost d: seq<Byte>, ghost top: int, ghost e: seq<Byte>) returns (s1: nat, l1: nat)
      requires Shape() && l == |d| > 0 && Holds(mem[..], s, d) && Written(mem[..], top, e) && p == top - |e| && p >= 3
      requires s + l <= p - 2 || p < s
      modifies this`p, mem
      ensures p == old(p) - |Code(d)| && Written(mem[..], top, e + Code(d))
      ensures l1 == l - Span(d) && s1 == s + Span(d) && Holds(mem[..], s1, d[Span(d)..])
      ensures forall a :: 0 <= a < 65536 && !(p < a <= old(p)) ==> mem[a] == old(mem[a])
    {
      hide Written, Holds, RunLen;
      ghost var mem0 := mem[..];
      HoldsRest(mem0, s, d, 0);
      if l > 4 && mem[s] == mem[s + 1] && mem[s] == mem[s + 2] {
        s1, l1 := RunRecord(s, l, d, top, e);
      } else {
        Single(mem[s], top, e);
        s1, l1 := s + 1, l;
      }
      l1 := l1 - 1;
      HoldsFrame(mem0, mem[..], s, d);
      HoldsRest(mem[..], s, d, l - l1);
    }

    /** A byte of its own, quoted if it is the escape byte. */
    method Single(b: Byte, ghost top: int, ghost e: seq<Byte>)
      requires Shape() && Written(mem[..], top, e) && p == top - |e| && p >= 2
      modifies this`p, mem
      ensures var r := if b == LCODE then [LCODE, LCODE_QUOTED] else [b]; p == old(p) - |r| && Written(mem[..], top, e + r)
      ensures forall a :: 0 <= a < 65536 && !(p < a <= old(p)) ==> mem[a] == old(mem[a])
    {
      hide Written;
      PushByte(b, top, e);
      if b == LCODE {
        PushByte(LCODE_QUOTED, top, e + [LCODE]);
        assert e + [LCODE, LCODE_QUOTED] == e + [LCODE] + [LCODE_QUOTED];
      }
    }

    method RunRecord(s: Word, l: nat, ghost d: seq<Byte>, ghost top: int, ghost e: seq<Byte>) returns (s1: nat, l1: nat)
      requires Shape() && l == |d| > 4 && Holds(mem[..], s, d) && Written(mem[..], top, e) && p == top - |e| && p >= 3
      requires s + l <= p - 2 || p < s
      requires d[0] == d[1] == d[2] && mem[s] == d[0]
      modifies this`p, mem
      ensures p == old(p) - 3 && Written(mem[..], top, e + [LCODE, RunLen(d, 3), d[0]])
      ensures s1 == s + RunLen(d, 3) && l1 == |d| + 1 - RunLen(d, 3)
      ensures forall a :: 0 <= a < 65536 && !(p < a <= old(p)) ==> mem[a] == old(mem[a])
    {
      hide Written, Holds, RunLen;
      ghost var mem0 := mem[..];
      HoldsRest(mem0, s, d, 0);
      var c := mem[s];
      PushByte(LCODE, top, e);
      HoldsFrame(mem0, mem[..], s, d);
      HoldsRest(mem[..], s, d, 0);
      var ct;
      ct, s1, l1 := Count(s + 2, l - 2, d);
      PushByte(ct, top, e + [LCODE]);
      PushByte(c, top, e + [LCODE] + [ct]);
      assert e + [LCODE, ct, c] == e + [LCODE] + [ct] + [c];
    }

    method PushByte(b: Byte, ghost top: int, ghost e: seq<Byte>)
      requires Shape() && Written(mem[..], top, e) && p == top - |e| && p > 0
      modifies this`p, mem
      ensures mem[..] == old(mem[..])[old(p) := b] && p == old(p) - 1 && Written(mem[..], top, e + [b])
    {
      WrittenMore(mem[..], top, e, b);
      Push(b);
    }

    /** do_swap_out of the l bytes at s, which lie outside the packed area and the free space below it.  Begun with
        ramtop at u_top it refuses nothing and writes the frame below u_top, here for data above and a frame that
        does not reach address 0. */
    method SwapOut(s0: Word, l0: Word) returns (ok: bool)
      requires Shape() && utop <= ramtop && (s0 + l0 <= utop || (ramtop <= s0 && s0 + l0 <= 65536))
      requires utop == ramtop ==> ramtop <= s0 && 2 * l0 + 8 <= ramtop
      requires l0 > 0 || ramtop >= 4
      modifies this, mem
      ensures utop == old(utop) && (!ok ==> ramtop == old(ramtop))
      ensures ok <==> utop == old(ramtop) || Fits(old(mem[s0..s0 + l0]), old(ramtop) - 1 - utop)
      ensures ok ==> Written(mem[..], old(ramtop) - 1, Encode(old(mem[s0..s0 + l0])) + [LCODE, LCODE_END])
      ensures ok ==> ramtop + 1 < 65536 && Pair(mem[ramtop], mem[ramtop + 1]) == old(ramtop)
      ensures ok ==> ramtop == old(ramtop) - |Encode(old(mem[s0..s0 + l0]))| - 4
      ensures ok ==> (utop <= ramtop <==> utop < old(ramtop) && (l0 > 0 || old(ramtop) >= utop + 4))
      ensures !ok ==> forall a :: 0 <= a < 65536 && !(utop <= a < old(ramtop)) ==> mem[a] == old(mem[a])
      ensures ok ==> forall a :: 0 <= a < 65536 && !(ramtop <= a < old(ramtop)) ==> mem[a] == old(mem[a])
    {
      hide Written, Holds, Encode, Code, Span, Fits;
      ghost var d0 := mem[s0..s0 + l0];
      ghost var d, e, top, mem0: seq<Byte> := d0, [], ramtop - 1, mem[..];
      Start(mem[..], top, s0, d0);
      p := (ramtop - 1) % 65536;
      var s, l := s0 as nat, l0 as nat;
      while l > 0
        invariant Shape() && utop == old(utop) && ramtop == old(ramtop) && p == top - |e| && |e| <= 2 * (l0 - l)
        invariant utop < ramtop ==> utop <= p && (l0 > 0 && l == 0 ==> utop + 3 <= p)
        invariant l == |d| <= l0 && s == s0 + (l0 - l) && Holds(mem[..], s, d) && Written(mem[..], top, e)
        invariant Encode(d0) == e + Encode(d)
        invariant utop < ramtop ==> (Fits(d0, top - utop) <==> Fits(d, p - utop))
        invariant l0 == 0 ==> e == []
        invariant forall a :: 0 <= a < 65536 && !(p < a < ramtop) ==> mem[a] == mem0[a]
        decreases l
      {
        CodeStep(d);
        if !Room(p, utop) {
          return false;
        }
        s, l := Pack(s, l, d, top, e);
        Regroup(d0, d, e, Code(d), Span(d));
        e, d := e + Code(d), d[Span(d)..];
      }
      assert d == [];
      FitsNone(p - utop);
      Trailer(top, e, d, d0);
      ok := true;
    }

    /** The end marker and the saved ramtop. */
    method Trailer(ghost top: int, ghost e: seq<Byte>, ghost d: seq<Byte>, ghost d0: seq<Byte>)
      requires Shape() && p == top - |e| && p >= 3 && top == ramtop - 1 && d == [] && Written(mem[..], top, e) && Encode(d0) == e + Encode(d)
      modifies this`p, this`ramtop, mem
      ensures Written(mem[..], top, Encode(d0) + [LCODE, LCODE_END])
      ensures ramtop == old(p) - 3 == top - |Encode(d0)| - 3 && Pair(mem[ramtop], mem[ramtop + 1]) == old(ramtop)
      ensures forall a :: 0 <= a < 65536 && !(ramtop <= a <= old(p)) ==> mem[a] == old(mem[a])
    {
      assert Encode(d0) == e;
      hide Written, Encode;
      PushByte(LCODE, top, e);
      PushByte(LCODE_END, top, e + [LCODE]);
      assert e + [LCODE] + [LCODE_END] == e + [LCODE, LCODE_END];
      ghost var mem1 := mem[..];
      Push(ramtop / 256);
      mem[p] := ramtop % 256;
      SameAbove(mem1, mem[..], top, e + [LCODE, LCODE_END]);
      ramtop := p;
    }

    /** unpack: from d0 on, l0 bytes out of what is coded downwards from p0, of which e is a stretch.  It stops here
        where the source only complains and runs on: at an end marker ("short swap"), and at a run that goes past
        the last byte.  ("bogon by" is printed then, and as well for a run that just reaches it.) */
    method Unpack(d0: Word, p0: Word, l0: Word, ghost e: seq<Byte>) returns (stopped: bool)
      requires Shape() && Written(mem[..], p0, e) && d0 + l0 <= 65536
      requires d0 + l0 <= p0 - |e| + 1 || p0 < d0
      modifies mem
      ensures stopped ==> !Decode(e, l0).Fine?
      ensures !stopped ==> match Decode(e, l0)
                           case Fine(out) => mem[d0..d0 + l0] == out
                           case Beyond(out) => out <= mem[d0..d0 + l0]
                           case _ => false
      ensures forall a :: 0 <= a < 65536 && !(d0 <= a < d0 + l0) ==> mem[a] == old(mem[a])
    {
      hide Written, Decode, Ahead;
      ghost var mem0, rest, done: seq<Byte> := mem[..], e, [];
      var d: nat, p: Word, l: nat := d0, p0, l0;
      AheadStart(e, l);
      while l > 0
        invariant d == d0 + (l0 - l) && l <= l0 && done == mem[d0..d]
        invariant Written(mem[..], p, rest) && (rest != [] ==> d0 + l0 <= p - |rest| + 1 || p < d0)
        invariant Ahead(e, l0, done, rest, l)
        invariant forall a :: 0 <= a < 65536 && !(d0 <= a < d) ==> mem[a] == mem0[a]
        decreases l
      {
        ghost var mem1, p1 := mem[..], p;
        var d1, l1, stop;
        ghost var inside, n;
        d1, p, l1, stop, inside, n := Unrecord(d, p, l, rest);
        if stop {
          AheadStops(e, l0, done, rest, l);
          return true;
        }
        assert mem[d0..d1] == done + mem[d..d1];
        AheadMore(e, l0, done, rest, l, mem[d..d1], l1, n, inside);
        if inside {
          WrittenRest(mem1, mem[..], p1, rest, n, d, d1);
        } else {
          Start(mem[..], p, 0, []);
        }
        rest := rest[n..];
        d, l, done := d1, l1, mem[d0..d1];
      }
      AheadEnds(e, l0, done, rest);
      stopped := false;
    }

    /** One turn of the loop of unpack.  inside says that all it read was rest, of which it used n bytes. */
    method Unrecord(d: nat, p: Word, l: nat, ghost rest: seq<Byte>)
      returns (d1: nat, p1: Word, l1: nat, stop: bool, ghost inside: bool, ghost n: nat)
      requires Shape() && 0 < l && d + l <= 65536 && Written(mem[..], p, rest)
      requires rest != [] ==> d + l <= p - |rest| + 1 || p < d
      modifies mem
      ensures n <= |rest| && l1 <= l && d1 == d + (l - l1)
      ensures !stop ==> l1 < l
      ensures stop ==> Decode(rest, l).Short? || Decode(rest, l).Over? || Decode(rest, l) == Beyond([])
      ensures !stop && inside ==> p1 == (p - n) % 65536 && Decode(rest, l) == Behind(mem[d..d1], Decode(rest[n..], l1))
      ensures !stop && !inside ==> n == |rest| && Decode(rest, l) == Beyond([])
      ensures forall a :: 0 <= a < 65536 && !(d <= a < d1) ==> mem[a] == old(mem[a])
    {
      hide Written, Decode;
      Read(mem[..], p, rest);
      DecodeStep(rest, l);
      d1, p1, l1, stop, n := d, p, l, false, 1;
      if mem[p1] != LCODE {
        mem[d1] := mem[p1];
        d1, p1, l1 := d1 + 1, (p1 - 1) % 65536, l1 - 1;
        assert mem[d..d1] == [mem[d]];
      } else {
        p1 := (p1 - 1) % 65536;
        if mem[p1] == LCODE_QUOTED {
          mem[d1] := LCODE;
          d1, p1, l1, n := d1 + 1, (p1 - 1) % 65536, l1 - 1, 2;
          assert mem[d..d1] == [LCODE];
        } else if mem[p1] == LCODE_END {
          stop := true;
        } else {
          var c, i := mem[(p1 - 1) % 65536], mem[p1];
          if i > l {
            stop := true;
          } else {
            d1, l1 := Fill(d1, l1, i, c);
            assert mem[d..d1] == Copies(c, i);
            p1, n := (p1 - 2) % 65536, 3;
          }
        }
      }
      inside := n <= |rest|;
      n := if stop then 0 else if inside then n else |rest|;
    }

    /** A program packed away, its memory used for something else, and unpacked from the encoder's first byte. */
    method OutAndIn(s0: Word, l0: Word) returns (ok: bool)
      requires Shape() && utop < ramtop && s0 + l0 <= utop && l0 > 0
      modifies this, mem
      ensures ok <==> Fits(old(mem[s0..s0 + l0]), old(ramtop) - 1 - utop)
      ensures old(ramtop) - utop >= 2 * l0 + 6 ==> ok
      ensures ok ==> mem[s0..s0 + l0] == old(mem[s0..s0 + l0])
      ensures !ok ==> forall a :: 0 <= a < 65536 && !(utop <= a < old(ramtop)) ==> mem[a] == old(mem[a])
    {
      hide Encode, Written, Fits, Decode, Holds;
      ghost var data := mem[s0..s0 + l0];
      var top := ramtop - 1;
      if top - utop >= 2 * l0 + 5 {
        TwiceFits(data, top - utop);
      }
      ok := SwapOut(s0, l0);
      if ok {
        ghost var mem1, e := mem[..], Encode(data) + [LCODE, LCODE_END];
        Reuse();
        SameAbove(mem1, mem[..], top, e);
        RoundTrip(data, [LCODE, LCODE_END]);
        var stopped := Unpack(s0, top, l0, e);
      }
    }

    /** do_swap_in, with a frame at ramtop that holds data.  It starts at the old ramtop and not one byte below, and
        so gets the data back, without stopping short or running over, exactly when Restores says. */
    method SwapIn(d0: Word, l0: Word, ghost data: seq<Byte>) returns (stopped: bool)
      requires Shape() && |data| == l0 && ramtop < 65535
      requires var old0 := Pair(mem[ramtop], mem[ramtop + 1]);
        && ramtop == old0 - |Encode(data)| - 4 && Written(mem[..], old0 - 1, Encode(data) + [LCODE, LCODE_END])
        && (d0 + l0 <= ramtop || (old0 < d0 && d0 + l0 <= 65536))
      modifies mem, this`ramtop
      ensures ramtop == old(Pair(mem[ramtop], mem[ramtop + 1]))
      ensures !stopped && mem[d0..d0 + l0] == data <==> Restores(old(mem[Pair(mem[ramtop], mem[ramtop + 1])]), data)
      ensures forall a :: 0 <= a < 65536 && !(d0 <= a < d0 + l0) ==> mem[a] == old(mem[a])
    {
      hide Encode, Written, Decode, Restores;
      var p: Word := Pair(mem[ramtop], mem[ramtop + 1]);
      ghost var x, end := mem[p], [LCODE, LCODE_END];
      WrittenAbove(mem[..], p, Encode(data) + end);
      StartsTooHigh(x, data, []);
      assert end + [] == end;
      stopped := Unpack(d0, p, l0, [x] + (Encode(data) + end));
      ramtop := p;
    }

    /** Packed away, overwritten and brought back by do_swap_in. */
    method OutAndSwapIn(s0: Word, l0: Word) returns (ok: bool, stopped: bool)
      requires Shape() && utop < ramtop && s0 + l0 <= utop && l0 > 0
      modifies this, mem
      ensures ok <==> Fits(old(mem[s0..s0 + l0]), old(ramtop) - 1 - utop)
      ensures ramtop == old(ramtop)
      ensures ok ==> (!stopped && mem[s0..s0 + l0] == old(mem[s0..s0 + l0])
                      <==> Restores(old(mem[ramtop]), old(mem[s0..s0 + l0])))
    {
      hide Encode, Written, Restores, Fits;
      ghost var data := mem[s0..s0 + l0];
      ghost var top := ramtop - 1;
      stopped := false;
      ok := SwapOut(s0, l0);
      if ok {
        ghost var mem1 := mem[..];
        Reuse();
        SameAbove(mem1, mem[..], top, Encode(data) + [LCODE, LCODE_END]);
        stopped := SwapIn(s0, l0, data);
      }
    }

    /** Anything may happen below utop. */
    method Reuse()
      requires Shape()
      modifies mem
      ensures forall a :: utop <= a < 65536 ==> mem[a] == old(mem[a])
    {
      var i := 0;
      while i < utop
        invariant 0 <= i <= utop && forall a :: utop <= a < 65536 ==> mem[a] == old(mem[a])
      {
        var b: Byte := *;
        mem[i] := b;
        i := i + 1;
      }
    }

    /** The run loop of unpack. */
    method Fill(d: nat, l: nat, n: Byte, c: Byte) returns (d1: nat, l1: nat)
      requires Shape() && n <= l && d + n <= 65536
      modifies mem
      ensures d1 == d + n && l1 == l - n
      ensures forall a :: 0 <= a < 65536 ==> mem[a] == if d <= a < d + n then c else old(mem[a])
    {
      d1, l1 := d, l;
      var i: int := n;
      while i > 0
        invariant 0 <= i <= n && d1 == d + n - i && l1 == l - n + i
        invariant forall a :: 0 <= a < 65536 ==> mem[a] == if d <= a < d1 then c else old(mem[a])
      {
        mem[d1] := c;
        d1 := d1 + 1;
        l1 := l1 - 1;
        i := i - 1;
      }
    }
  }

  lemma CodeStep(d: seq<Byte>)
    requires d != []
    ensures Encode(d) == Code(d) + Encode(d[Span(d)..]) && 1 <= |Code(d)| <= 3 && |Code(d)| <= 2 * Span(d) && Span(d) <= |d|
    ensures forall gap :: Fits(d, gap) <==> gap >= 6 && Fits(d[Span(d)..], gap - |Code(d)|)
  {
  }

  /** The bytes of a stretch as unpack reads them. */
  lemma Read(mem: seq<Byte>, p: Word, rest: seq<Byte>)
    requires |mem| == 65536 && Written(mem, p, rest)
    ensures |rest| <= p + 1
    ensures |rest| > 0 ==> mem[p] == rest[0]
    ensures |rest| > 1 ==> mem[p - 1] == rest[1]
    ensures |rest| > 2 ==> mem[p - 2] == rest[2]
  {
    assert |rest| > 0 ==> ByteBelow(mem, p, 0) == rest[0];
    assert |rest| > 1 ==> ByteBelow(mem, p, 1) == rest[1];
    assert |rest| > 2 ==> ByteBelow(mem, p, 2) == rest[2];
  }

  /** What is left of a stretch when n bytes of it have been read and something was written elsewhere. */
  lemma WrittenRest(mem: seq<Byte>, mem': seq<Byte>, p: Word, rest: seq<Byte>, n: nat, lo: nat, hi: nat)
    requires |mem| == |mem'| == 65536 && Written(mem, p, rest) && n <= |rest|
    requires forall a :: 0 <= a < 65536 && !(lo <= a < hi) ==> mem'[a] == mem[a]
    requires n < |rest| ==> hi <= p - |rest| + 1 || p < lo
    ensures |rest| <= p + 1 && Written(mem', (p - n) % 65536, rest[n..])
  {
    forall i | 0 <= i < |rest[n..]| ensures ByteBelow(mem', p - n, i) == rest[n..][i] {
      assert ByteBelow(mem, p, n + i) == rest[n + i];
    }
  }

  lemma WrittenAbove(mem: seq<Byte>, p: Word, e: seq<Byte>)
    requires |mem| == 65536 && Written(mem, p - 1, e)
    ensures Written(mem, p, [mem[p]] + e)
  {
    var e' := [mem[p]] + e;
    forall i | 0 <= i < |e'| ensures ByteBelow(mem, p, i) == e'[i] {
      assert i > 0 ==> ByteBelow(mem, p - 1, i - 1) == e[i - 1];
    }
  }

  /** done is what unpack has so far and rest what it has not read of e; or it has left e behind. */
  ghost predicate Ahead(e: seq<Byte>, l0: nat, done: seq<Byte>, rest: seq<Byte>, l: nat) {
    || Decode(e, l0) == Behind(done, Decode(rest, l))
    || (rest == [] && Decode(e, l0).Beyond? && Decode(e, l0).out <= done)
  }

  lemma AheadStart(e: seq<Byte>, l: nat)
    ensures Ahead(e, l, [], e, l)
  {
    assert [] + Decode(e, l).out == Decode(e, l).out;
  }

  lemma AheadMore(e: seq<Byte>, l0: nat, done: seq<Byte>, rest: seq<Byte>, l: nat, bytes: seq<Byte>, l1: nat, n: nat, inside: bool)
    requires Ahead(e, l0, done, rest, l) && l > 0 && n <= |rest|
    requires inside ==> Decode(rest, l) == Behind(bytes, Decode(rest[n..], l1))
    requires !inside ==> n == |rest| && Decode(rest, l) == Beyond([])
    ensures Ahead(e, l0, done + bytes, rest[n..], l1)
  {
    hide Decode;
    if inside {
      var f := Decode(rest[n..], l1);
      assert done + (bytes + f.out) == done + bytes + f.out;
    }
  }

  lemma AheadStops(e: seq<Byte>, l0: nat, done: seq<Byte>, rest: seq<Byte>, l: nat)
    requires Ahead(e, l0, done, rest, l) && !Decode(rest, l).Fine?
    ensures !Decode(e, l0).Fine?
  {
  }

  lemma AheadEnds(e: seq<Byte>, l0: nat, done: seq<Byte>, rest: seq<Byte>)
    requires Ahead(e, l0, done, rest, 0)
    ensures match Decode(e, l0)
            case Fine(out) => out == done
            case Beyond(out) => out <= done
            case _ => false
  {
    assert done + [] == done;
  }

  lemma Start(mem: seq<Byte>, top: int, s: nat, d: seq<Byte>)
    requires |mem| == 65536 && -1 <= top < 65536 && s + |d| <= 65536 && d == mem[s..s + |d|]
    ensures Written(mem, top, []) && Holds(mem, s, d) && Encode(d) == [] + Encode(d)
  {
  }

  lemma Regroup(d0: seq<Byte>, d: seq<Byte>, e: seq<Byte>, r: seq<Byte>, n: nat)
    requires n <= |d| && Encode(d0) == e + Encode(d) && Encode(d) == r + Encode(d[n..])
    ensures Encode(d0) == e + r + Encode(d[n..])
  {
    assert e + (r + Encode(d[n..])) == e + r + Encode(d[n..]);
  }

  lemma SameAbove(mem: seq<Byte>, mem': seq<Byte>, top: int, e: seq<Byte>)
    requires Written(mem, top, e) && |mem'| == |mem| && forall a :: top - |e| < a <= top ==> mem'[a] == mem[a]
    ensures Written(mem', top, e)
  {
    forall i | 0 <= i < |e| ensures ByteBelow(mem', top, i) == e[i] {
      assert ByteBelow(mem, top, i) == e[i];
    }
  }
}
