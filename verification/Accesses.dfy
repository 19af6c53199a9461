/** The memory accesses of the assembler, and why it cannot tell paged memory from an array: icint.c assembles with
    wrM, rdM and add2M, iclink.c does the same on an array (Applications/BCPL). */
module Accesses {
  import opened Intcode
  import Paging

  type Log = seq<Paging.Access>

  function Written(log: Log): set<nat> {
    set i | 0 <= i < |log| && log[i].Write? :: log[i].addr
  }

  /** The array as it is after the accesses. */
  function Array(log: Log): Paging.Words {
    Paging.Plain(Paging.Zeros(), log)
  }

  /** Access i is inside the memory, reads what was there, and goes to an address that was written before. */
  ghost predicate AccessOk(log: Log, got: seq<Word>, i: nat)
    requires i < |log| && i < |got|
  {
    && log[i].addr < VSIZE
    && (log[i].Read? ==> got[i] == Array(log[..i])[log[i].addr])
    && (!log[i].Write? ==> log[i].addr in Written(log[..i]))
  }

  /** log and got are the accesses that led to mem and what they read. */
  ghost predicate Logs(log: Log, got: seq<Word>, mem: seq<Word>) {
    && |got| == |log| && |mem| == VSIZE
    && (forall a :: 0 <= a < VSIZE ==> mem[a] == Array(log)[a])
    && (forall i :: 0 <= i < |log| ==> AccessOk(log, got, i))
  }

  /** The page of an address was written to, and no other page was accessed since. */
  ghost predicate JustStored(log: Log, page: nat) {
    exists j :: 0 <= j < |log| && StoredAt(log, page, j)
  }

  predicate StoredAt(log: Log, page: nat, j: nat)
    requires j < |log|
  {
    log[j].Write? && forall k :: j <= k < |log| ==> Paging.Page(log[k]) == page
  }

  /** add2M is only used on a page just written to. */
  ghost predicate Prompt(log: Log) {
    forall i :: 0 <= i < |log| && log[i].Add? ==> JustStored(log[..i], Paging.Page(log[i]))
  }

  // ------------------------------------------------------------------ one more access

  lemma WrittenMore(log: Log, op: Paging.Access)
    ensures Written(log + [op]) == Written(log) + if op.Write? then {op.addr} else {}
  {
    var more := log + [op];
    forall a | a in Written(log) ensures a in Written(more) {
      var i :| 0 <= i < |log| && log[i].Write? && log[i].addr == a;
      assert more[i] == log[i];
    }
    if op.Write? {
      assert more[|log|] == op;
    }
  }

  lemma LogsMore(log: Log, got: seq<Word>, mem: seq<Word>, op: Paging.Access, g: Word, mem': seq<Word>)
    requires Logs(log, got, mem) && op.addr < VSIZE && (!op.Write? ==> op.addr in Written(log)) && (op.Read? ==> g == mem[op.addr])
    requires mem' == match op
                     case Read(_) => mem
                     case Write(a, x) => mem[a := x]
                     case Add(a, x) => mem[a := Paging.Sum(mem[a], x)]
    ensures Logs(log + [op], got + [g], mem')
  {
    hide Paging.Sum, Written;
    var more, got' := log + [op], got + [g];
    assert more[..|log|] == log;
    forall i | 0 <= i < |more| ensures AccessOk(more, got', i) {
      if i < |log| {
        assert AccessOk(log, got, i) && more[..i] == log[..i];
      }
    }
  }

  lemma PromptMore(log: Log, op: Paging.Access)
    ensures Prompt(log) && (op.Add? ==> JustStored(log, Paging.Page(op))) ==> Prompt(log + [op])
    ensures op.Write? || JustStored(log, Paging.Page(op)) ==> JustStored(log + [op], Paging.Page(op))
  {
    var more, page := log + [op], Paging.Page(op);
    assert more[..|log|] == log;
    if Prompt(log) && (op.Add? ==> JustStored(log, page)) {
      forall i | 0 <= i < |more| && more[i].Add? ensures JustStored(more[..i], Paging.Page(more[i])) {
        assert i < |log| ==> more[..i] == log[..i];
      }
    }
    if op.Write? {
      assert StoredAt(more, page, |log|);
    } else if JustStored(log, page) {
      var j :| 0 <= j < |log| && StoredAt(log, page, j);
      assert StoredAt(more, page, j);
    }
  }

  // ------------------------------------------------------------------ on paged memory

  /** An address written holds the same whatever was in memory before. */
  lemma {:induction false} WrittenSame(init: Paging.Words, log: Log, got: seq<Word>, a: nat)
    requires |got| == |log| && (forall i :: 0 <= i < |log| ==> AccessOk(log, got, i)) && a in Written(log)
    ensures a < VSIZE && Paging.Plain(init, log)[a] == Array(log)[a]
    decreases |log|
  {
    var k := |log| - 1;
    var rest, op := log[..k], log[k];
    assert rest + [op] == log;
    WrittenMore(rest, op);
    assert AccessOk(log, got, k);
    forall i | 0 <= i < k ensures AccessOk(rest, got[..k], i) {
      assert AccessOk(log, got, i) && rest[..i] == log[..i];
    }
    if a in Written(rest) {
      WrittenSame(init, rest, got[..k], a);
    }
  }

  lemma StoredFirm(init: Paging.Words, log: Log, outs: seq<int>, page: nat)
    requires |outs| == |log| && (forall i :: 0 <= i < |log| ==> outs[i] != Paging.Page(log[i])) && JustStored(log, page)
    ensures page in Paging.After(Paging.Start(init), log, outs).firm
  {
    Paging.FirmExactly(Paging.Start(init), log, outs, page);
    var j :| 0 <= j < |log| && StoredAt(log, page, j);
    assert Paging.FirmSince({}, log, outs, page, j);
  }

  lemma PromptIsFirm(init: Paging.Words, log: Log, outs: seq<int>)
    requires |outs| == |log| && (forall i :: 0 <= i < |log| ==> outs[i] != Paging.Page(log[i])) && Prompt(log)
    ensures Paging.FirmAdds(Paging.Start(init), log, outs)
  {
    hide Paging.After;
    forall i | 0 <= i < |log| && log[i].Add?
      ensures var page := Paging.Page(log[i]);
        page in Paging.Come(Paging.After(Paging.Start(init), log[..i], outs[..i]), outs[i], page).firm
    {
      StoredFirm(init, log[..i], outs[..i], Paging.Page(log[i]));
    }
  }

  /** At any moment of a paged run of the accesses, an address written before reads as it does in the array. */
  lemma PagedAt(init: Paging.Words, log: Log, got: seq<Word>, outs: seq<int>, i: nat, a: nat)
    requires |outs| == |log| == |got| && (forall i :: 0 <= i < |log| ==> outs[i] != Paging.Page(log[i])) && Prompt(log)
    requires (forall i :: 0 <= i < |log| ==> AccessOk(log, got, i)) && i <= |log| && a in Written(log[..i])
    ensures a < VSIZE && Paging.After(Paging.Start(init), log[..i], outs[..i]).now[a] == Array(log[..i])[a]
  {
    hide Paging.After, Paging.Plain;
    forall j | 0 <= j < i ensures AccessOk(log[..i], got[..i], j) {
      assert AccessOk(log, got, j) && log[..i][..j] == log[..j];
    }
    assert Prompt(log[..i]) by {
      forall j | 0 <= j < i && log[..i][j].Add? ensures JustStored(log[..i][..j], Paging.Page(log[..i][j])) {
        assert log[..i][..j] == log[..j];
      }
    }
    PromptIsFirm(init, log[..i], outs[..i]);
    Paging.PlainArray(init, log[..i], outs[..i]);
    WrittenSame(init, log[..i], got[..i], a);
  }

  /** Paged memory, with any number of buffers and whatever pages are replaced, answers these accesses as the array
      did, and has the same words in the end at every address that was written. */
  lemma PagedAlike(log: Log, got: seq<Word>, mem: seq<Word>, init: Paging.Words, outs: seq<int>, values: seq<Word>)
    requires Logs(log, got, mem) && Prompt(log) && |outs| == |values| == |log|
    requires forall i :: 0 <= i < |log| ==> outs[i] != Paging.Page(log[i]) && Paging.Reads(init, log, outs, values, i)
    ensures forall i :: 0 <= i < |log| && log[i].Read? ==> values[i] == got[i]
    ensures forall a :: a in Written(log) ==> a < VSIZE && Paging.After(Paging.Start(init), log, outs).now[a] == mem[a]
    ensures forall a :: 0 <= a < VSIZE && a !in Written(log) ==> mem[a] == 0
  {
    hide Paging.After, Paging.Plain;
    forall i | 0 <= i < |log| && log[i].Read? ensures values[i] == got[i] {
      assert AccessOk(log, got, i);
      PagedAt(init, log, got, outs, i, log[i].addr);
    }
    assert log[..|log|] == log && outs[..|log|] == outs;
    forall a | a in Written(log) ensures a < VSIZE && Paging.After(Paging.Start(init), log, outs).now[a] == mem[a] {
      PagedAt(init, log, got, outs, |log|, a);
    }
    forall a | 0 <= a < VSIZE && a !in Written(log) ensures mem[a] == 0 {
      NeverWritten(log, got, a);
    }
  }

  lemma {:induction false} NeverWritten(log: Log, got: seq<Word>, a: nat)
    requires |got| == |log| && (forall i :: 0 <= i < |log| ==> AccessOk(log, got, i)) && a < VSIZE && a !in Written(log)
    ensures Array(log)[a] == 0
    decreases |log|
  {
    if log != [] {
      var k := |log| - 1;
      var rest, op := log[..k], log[k];
      assert rest + [op] == log;
      WrittenMore(rest, op);
      assert AccessOk(log, got, k);
      forall i | 0 <= i < k ensures AccessOk(rest, got[..k], i) {
        assert AccessOk(log, got, i) && rest[..i] == log[..i];
      }
      NeverWritten(rest, got[..k], a);
    }
  }
}
