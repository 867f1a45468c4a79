/** The two byte counters of the PPPoS client: 32-bit numbers that the output callback and the client
    task add to and that other threads sample and reset, each in its own critical section.

    `rx` counts what is written to the modem and `tx` what is read from it. */
module ByteCounters {

  const MODULUS: nat := 0x1_0000_0000

  /** An integer as an unsigned 32-bit number. */
  function Wrap(n: int): (w: nat)
    ensures w < MODULUS
  {
    n % MODULUS
  }

  // ---- All interleavings -----------------------------------------------------------------------

  /** One atomic step of one of the threads. */
  datatype Op =
    | Write(written: int)  // the output callback has written to the modem
    | CountWritten         // ... and counts it
    | Read(len: nat)       // the client task has read from the modem
    | CountRead            // ... and counts it
    | Sample(rst: bool)    // getRxTxCount
    | Discard              // resetRxTxCount, or a task starts

  /** The counters, what their threads have yet to count, and the history. */
  datatype State = State(
    rx: nat, tx: nat, toCountOut: int, toCountIn: nat,
    written: nat, failedWrites: nat, read: nat,
    sampledRx: nat, sampledTx: nat, discardedRx: nat, discardedTx: nat)

  const START: State := State(0, 0, 0, 0, 0, 0, 0, 0, 0, 0, 0)

  function Step(s: State, op: Op): State {
    match op
    case Write(w) =>
      if s.toCountOut != 0 || !(-1 <= w < MODULUS) then s
      else if w < 0 then s.(toCountOut := w, failedWrites := s.failedWrites + 1)
      else s.(toCountOut := w, written := s.written + w)
    case CountWritten => s.(rx := Wrap(s.rx + s.toCountOut), toCountOut := 0)
    case Read(len) => if s.toCountIn != 0 then s else s.(toCountIn := len, read := s.read + len)
    case CountRead => s.(tx := Wrap(s.tx + s.toCountIn), toCountIn := 0)
    case Sample(rst) =>
      if rst then s.(rx := 0, tx := 0, sampledRx := s.sampledRx + s.rx, sampledTx := s.sampledTx + s.tx) else s
    case Discard =>
      s.(rx := 0, tx := 0, discardedRx := s.discardedRx + s.rx, discardedTx := s.discardedTx + s.tx)
  }

  function Run(ops: seq<Op>): State {
    if ops == [] then START else Step(Run(ops[..|ops| - 1]), ops[|ops| - 1])
  }

  /** Everything that the counters have stood for, or are about to. */
  function AccountedRx(s: State): int {
    s.sampledRx + s.discardedRx + s.rx + s.toCountOut
  }

  function AccountedTx(s: State): int {
    s.sampledTx + s.discardedTx + s.tx + s.toCountIn
  }

  /** Congruence modulo the counter's range, by a witness. */
  predicate Off(a: int, b: int, wraps: int) {
    a == b + wraps * MODULUS
  }

  lemma WrapOff(n: int) returns (k: int)
    ensures n == Wrap(n) + k * MODULUS
  {
    k := n / MODULUS;
  }

  /** A step changes what is accounted for as it changes what has moved, but for whole wraps. */
  lemma StepAccounted(s: State, op: Op) returns (k: int, l: int)
    ensures var s' := Step(s, op);
      && Off(AccountedRx(s') - (s'.written - s'.failedWrites), AccountedRx(s) - (s.written - s.failedWrites), k)
      && Off(AccountedTx(s') - s'.read, AccountedTx(s) - s.read, l)
  {
    hide Wrap;
    k, l := 0, 0;
    match op
    case CountWritten =>
      k := WrapOff(s.rx + s.toCountOut);
      k := -k;
    case CountRead =>
      l := WrapOff(s.tx + s.toCountIn);
      l := -l;
    case _ =>
  }

  lemma {:induction false} Accounted(ops: seq<Op>) returns (k: int, l: int)
    ensures var s := Run(ops);
      && Off(AccountedRx(s) - (s.written - s.failedWrites), 0, k)
      && Off(AccountedTx(s) - s.read, 0, l)
  {
    hide Step, AccountedRx, AccountedTx, Off, Run;
    RunStep(ops);
    if ops == [] {
      k, l := 0, 0;
      RxAtStart();
      TxAtStart();
      OffNone(0);
    } else {
      var before, op := Run(ops[..|ops| - 1]), ops[|ops| - 1];
      var k0, l0 := Accounted(ops[..|ops| - 1]);
      var i, j := StepAccounted(before, op);
      k, l := k0 + i, l0 + j;
      var s := Step(before, op);
      OffAdds(AccountedRx(s) - (s.written - s.failedWrites), AccountedRx(before) - (before.written - before.failedWrites), i, k0);
      OffAdds(AccountedTx(s) - s.read, AccountedTx(before) - before.read, j, l0);
    }
  }

  lemma RunStep(ops: seq<Op>)
    ensures Run(ops) == if ops == [] then START else Step(Run(ops[..|ops| - 1]), ops[|ops| - 1])
  {
  }

  lemma RxAtStart()
    ensures AccountedRx(START) - (START.written - START.failedWrites) == 0
  {
  }

  lemma TxAtStart()
    ensures AccountedTx(START) - START.read == 0
  {
  }

  lemma OffNone(a: int)
    ensures Off(a, a, 0)
  {
  }

  lemma OffAdds(a: int, b: int, i: int, k: int)
    requires Off(a, b, i) && Off(b, 0, k)
    ensures Off(a, 0, k + i)
  {
  }

  /** Byte-count conservation: in every interleaving, what was sampled with a reset, what was
      discarded, the current counter and what is about to be counted add up, modulo 2^32, to the
      bytes read from the modem; for the bytes written to it they do if and only if the number of
      failed writes is a multiple of 2^32, since each failed write takes one off. */
  lemma Conservation(ops: seq<Op>)
    ensures var s := Run(ops);
      && Wrap(AccountedTx(s)) == Wrap(s.read)
      && Wrap(AccountedRx(s)) == Wrap(s.written - s.failedWrites)
      && (Wrap(AccountedRx(s)) == Wrap(s.written) <==> s.failedWrites % MODULUS == 0)
  {
    var s := Run(ops);
    hide Run;
    var k, l := Accounted(ops);
    SameWrap(AccountedTx(s), s.read, l);
    SameWrap(AccountedRx(s), s.written - s.failedWrites, k);
    Shifted(s.written, s.failedWrites);
  }

  // ---- What a sample shows ---------------------------------------------------------------------

  /** What has been counted since the counters were last cleared: by a sample with a reset, by a plain
      reset, or at the start. */
  function CountedSince(ops: seq<Op>): (int, int) {
    if ops == [] then (0, 0)
    else NextCounted(CountedSince(ops[..|ops| - 1]), Run(ops[..|ops| - 1]), ops[|ops| - 1])
  }

  function NextCounted(counted: (int, int), s: State, op: Op): (int, int) {
    match op
    case CountWritten => (counted.0 + s.toCountOut, counted.1)
    case CountRead => (counted.0, counted.1 + s.toCountIn)
    case Sample(rst) => if rst then (0, 0) else counted
    case Discard => (0, 0)
    case _ => counted
  }

  lemma StepShows(s: State, counted: (int, int), op: Op)
    requires s.rx == counted.0 % 0x1_0000_0000 && s.tx == counted.1 % 0x1_0000_0000
    ensures Step(s, op).rx == NextCounted(counted, s, op).0 % 0x1_0000_0000
    ensures Step(s, op).tx == NextCounted(counted, s, op).1 % 0x1_0000_0000
  {
    hide Wrap;
    AddsUp(counted.0, s.toCountOut);
    AddsUp(counted.1, s.toCountIn);
  }

  lemma CountedStep(ops: seq<Op>)
    ensures CountedSince(ops)
            == if ops == [] then (0, 0)
               else NextCounted(CountedSince(ops[..|ops| - 1]), Run(ops[..|ops| - 1]), ops[|ops| - 1])
    ensures START.rx == 0 && START.tx == 0
  {
    hide Run, NextCounted;
  }

  /** In every interleaving the counters, and so every sample, show what has been counted since they were
      last cleared, modulo 2^32.  A sample without a reset clears nothing. */
  lemma {:induction false} SampleShows(ops: seq<Op>)
    ensures Run(ops).rx == CountedSince(ops).0 % 0x1_0000_0000
    ensures Run(ops).tx == CountedSince(ops).1 % 0x1_0000_0000
  {
    hide Run, Step, CountedSince, NextCounted;
    RunStep(ops);
    CountedStep(ops);
    if ops != [] {
      var init := ops[..|ops| - 1];
      SampleShows(init);
      StepShows(Run(init), CountedSince(init), ops[|ops| - 1]);
    }
  }

  lemma AddsUp(n: int, k: int)
    ensures Wrap(n % 0x1_0000_0000 + k) == (n + k) % 0x1_0000_0000
  {
  }

  /** A sample without a reset can be inserted anywhere and changes nothing that comes after it. */
  lemma {:induction false} SampleApart(before: seq<Op>, after: seq<Op>)
    ensures Run(before + [Sample(false)] + after) == Run(before + after)
    decreases |after|
  {
    var with, without := before + [Sample(false)] + after, before + after;
    if after == [] {
      assert with == before + [Sample(false)] && without == before;
      assert with[..|with| - 1] == before;
    } else {
      var init := after[..|after| - 1];
      SampleApart(before, init);
      assert with[..|with| - 1] == before + [Sample(false)] + init;
      assert without[..|without| - 1] == before + init;
    }
  }

  // ---- The counters in memory ------------------------------------------------------------------

  /** The counters and the atomic sections of the code that change them.  `ops` is the history of these
      sections: each of them is the step of its name, so what `Conservation` says of all interleavings
      holds of the counters in memory at any time. */
  class Counters {
    var rx: nat
    var tx: nat
    ghost var ops: seq<Op>

    ghost predicate Valid()
      reads this
    {
      rx == Run(ops).rx < MODULUS && tx == Run(ops).tx < MODULUS
    }

    constructor ()
      ensures Valid() && ops == [] && rx == 0 && tx == 0
    {
      rx, tx, ops := 0, 0, [];
    }

    /** `ppp_output_callback` writes to the modem: `written` is the result of `uart_write_bytes`, -1 for
        an error, which the unsigned variable turns into a large positive number. */
    method WriteOut(written: int) returns (ret: nat)
      requires Valid() && -1 <= written < MODULUS && Run(ops).toCountOut == 0
      modifies this`ops
      ensures Valid() && ops == old(ops) + [Write(written)]
      ensures Run(ops).toCountOut == written && ret == if written == -1 then 0xFFFF_FFFF else written
    {
      hide Run, Wrap;
      Unsigned(written);
      ret := Wrap(written);
      Record(Write(written));
    }

    /** ... and counts what it has written. */
    method CountOut(ret: nat)
      requires Valid() && ret == Wrap(Run(ops).toCountOut) && -1 <= Run(ops).toCountOut < MODULUS
      modifies this
      ensures Valid() && ops == old(ops) + [CountWritten] && Run(ops).toCountOut == 0
      ensures rx == (old(rx) + ret) % 0x1_0000_0000 && tx == old(tx)
    {
      hide Run, Wrap;
      CountedOut(Run(ops).rx, Run(ops).toCountOut);
      WrapIs(rx + ret);
      if ret > 0 {
        rx := Wrap(rx + ret);
      }
      Record(CountWritten);
    }

    /** The client task reads `len` bytes, negative for an error. */
    method ReadIn(len: int)
      requires Valid() && Run(ops).toCountIn == 0
      modifies this`ops
      ensures Valid() && ops == old(ops) + [Read(if len > 0 then len else 0)]
      ensures Run(ops).toCountIn == if len > 0 then len else 0
    {
      Record(Read(if len > 0 then len else 0));
    }

    /** ... and counts them. */
    method CountIn(len: int)
      requires Valid() && Run(ops).toCountIn == if len > 0 then len else 0
      modifies this
      ensures Valid() && ops == old(ops) + [CountRead] && Run(ops).toCountIn == 0
      ensures tx == (if len > 0 then (old(tx) + len) % 0x1_0000_0000 else old(tx)) && rx == old(rx)
    {
      if len > 0 {
        tx := Wrap(tx + len);
      }
      Record(CountRead);
    }

    /** `getRxTxCount`: no byte is sampled twice, and none is lost between the sample and the reset. */
    method GetRxTxCount(rst: bool) returns (r: nat, t: nat)
      requires Valid()
      modifies this
      ensures Valid() && ops == old(ops) + [Sample(rst)]
      ensures var before, after := old(Run(ops)), Run(ops);
        && r == before.rx && t == before.tx
        && (rst ==> after.sampledRx == before.sampledRx + r && after.sampledTx == before.sampledTx + t)
      ensures r == old(rx) && t == old(tx)
      ensures if rst then rx == 0 && tx == 0 else rx == old(rx) && tx == old(tx)
    {
      r, t := rx, tx;
      if rst {
        rx, tx := 0, 0;
      }
      Record(Sample(rst));
    }

    /** `resetRxTxCount`, and the start of the task. */
    method ResetRxTxCount()
      requires Valid()
      modifies this
      ensures Valid() && ops == old(ops) + [Discard] && rx == 0 && tx == 0
    {
      rx, tx := 0, 0;
      Record(Discard);
    }

    /** One more section has been executed. */
    ghost method Record(op: Op)
      requires var s := Step(Run(ops), op); rx == s.rx < MODULUS && tx == s.tx < MODULUS
      modifies this`ops
      ensures Valid() && ops == old(ops) + [op] && Run(ops) == Step(old(Run(ops)), op)
    {
      RunNext(ops, op);
      ops := ops + [op];
    }

    /** The balance of the counters in memory, at any time. */
    lemma Balanced()
      requires Valid()
      ensures var s := Run(ops);
        && Wrap(s.sampledTx + s.discardedTx + tx + s.toCountIn) == Wrap(s.read)
        && Wrap(s.sampledRx + s.discardedRx + rx + s.toCountOut) == Wrap(s.written - s.failedWrites)
    {
      hide Run, Wrap;
      Conservation(ops);
    }
  }

  lemma RunNext(ops: seq<Op>, op: Op)
    ensures Run(ops + [op]) == Step(Run(ops), op)
  {
    assert (ops + [op])[..|ops|] == ops;
  }

  /** Adding the unsigned form of a result is adding the result, and a result of 0 changes nothing. */
  lemma CountedOut(n: nat, written: int)
    requires n < MODULUS && -1 <= written < MODULUS
    ensures Wrap(n + Wrap(written)) == Wrap(n + written)
    ensures Wrap(written) == 0 ==> Wrap(n + written) == n
  {
    var k := WrapOff(written);
    SameWrap(n + written, n + Wrap(written), k);
  }

  lemma Unsigned(written: int)
    requires -1 <= written < 0x1_0000_0000
    ensures Wrap(written) == if written == -1 then 0xFFFF_FFFF else written
  {
  }

  lemma WrapIs(n: int)
    ensures Wrap(n) == n % 0x1_0000_0000
  {
  }

  /** One failed write and nothing else: the counter of bytes written shows 2^32 - 1. */
  lemma FailedWriteCounts()
    ensures var s := Run([Write(-1), CountWritten]); s.written == 0 && s.rx == 4294967295
  {
    var ops := [Write(-1), CountWritten];
    assert ops[..1] == [Write(-1)] && ops[..1][..0] == [];
    assert Run(ops[..1]) == Step(START, Write(-1));
  }

  lemma SameWrap(a: int, b: int, k: int)
    requires Off(a, b, k)
    ensures Wrap(a) == Wrap(b)
  {
  }

  lemma Shifted(a: int, d: nat)
    ensures Wrap(a - d) == Wrap(a) <==> d % MODULUS == 0
  {
  }
}
