/** The whole transfer: its bus program and its read buffers, over all command lists. */
module I2cTransfer {
  import opened Words
  import opened I2cSpec
  import opened I2cLists
  import opened I2cController

  const BEGIN := Cursor(0, 0, false)

  /** How a list ends: it runs, the controller reports an error, or no interrupt comes; in the last
      two cases after `seen` events on the bus. */
  datatype Outcome = Runs | Faults(status: Interrupt, seen: nat) | Silent(seen: nat)

  /** The buffers at the cursor `c`: the read bytes before `c` are those of the devices, a
      buffer of a write is as it was, and no byte has another source. */
  ghost predicate ReadUpTo(msgs: seq<Msg>, dev: Device, b0: seq<Bytes>, b: seq<Bytes>, c: Cursor) {
    |b| == |b0| == |msgs| &&
    forall i: nat :: i < |b0| ==>
      && |b[i]| == |b0[i]|
      && (msgs[i].WriteMsg? ==> b[i] == b0[i])
      && forall k: nat :: k < |b0[i]| ==>
           && (b[i][k] == dev(i, k) || b[i][k] == b0[i][k])
           && (msgs[i].ReadMsg? && Before(c, i, k) && k < msgs[i].size ==> b[i][k] == dev(i, k))
  }

  lemma DrainedReads(msgs: seq<Msg>, dev: Device, b0: seq<Bytes>, b: seq<Bytes>, b': seq<Bytes>,
                     rx: seq<RxEntry>, c: Cursor, c': Cursor)
    requires ReadUpTo(msgs, dev, b0, b, c) && Drained(dev, rx, b, b')
    requires Covers(msgs, rx, c, c') && EntriesOk(msgs, rx)
    ensures ReadUpTo(msgs, dev, b0, b', c')
  {
    forall i: nat | i < |b0| && msgs[i].WriteMsg? ensures b'[i] == b0[i] {
      forall k: nat | k < |b0[i]| ensures b'[i][k] == b0[i][k] {
        assert !Covered(rx, i, k);
      }
    }
    forall i: nat, k: nat | i < |b0| && k < |b0[i]| && msgs[i].ReadMsg? && Before(c', i, k) && k < msgs[i].size
      ensures b'[i][k] == dev(i, k)
    {
      if !Before(c, i, k) {
        assert Covered(rx, i, k);
      }
    }
  }

  /** After the last message, each read buffer is what the device sent. */
  lemma AllRead(msgs: seq<Msg>, dev: Device, b0: seq<Bytes>, b: seq<Bytes>, c: Cursor, i: nat)
    requires ReadUpTo(msgs, dev, b0, b, c) && c.msg >= |msgs| && i < |msgs| && msgs[i].ReadMsg?
    requires |b0[i]| == msgs[i].size
    ensures |b[i]| == msgs[i].size && forall k :: 0 <= k < msgs[i].size ==> b[i][k] == dev(i, k)
  {
    forall k: nat | k < msgs[i].size ensures b[i][k] == dev(i, k) {
      assert Before(c, i, k);
    }
  }

  /** What holds before a list runs: it starts at the cursor `c0`. */
  ghost predicate Running(i2c: Controller, c0: Cursor, b0: seq<Bytes>)
    reads i2c
  {
    && i2c.Valid() && i2c.Settled() && i2c.err.None?
    && Filled(i2c.msgs, i2c.dev, i2c.list, i2c.rx, c0, i2c.At())
    && i2c.trace + Program(i2c.msgs, c0) == Program(i2c.msgs, BEGIN)
    && i2c.fifo == [] && i2c.coming == Stream(i2c.msgs, i2c.dev, c0)
    && ReadUpTo(i2c.msgs, i2c.dev, b0, i2c.bufs, c0)
  }

  /** The first half of esp32s31_i2c_xfer(): the messages, and the first list. */
  method Begin(i2c: Controller, msgs: seq<Msg>, bufs: seq<Bytes>, ghost dev: Device, sends: Bytes)
    requires |bufs| == |msgs| && forall i :: 0 <= i < |msgs| && msgs[i].ReadMsg? ==> |bufs[i]| == msgs[i].size
    requires sends == Stream(msgs, dev, BEGIN)
    modifies i2c
    ensures i2c.msgs == msgs && i2c.dev == dev && !i2c.done && i2c.err.None? && Running(i2c, BEGIN, bufs)
  {
    hide Filled, Program, Stream;
    i2c.msgs, i2c.msg, i2c.pos, i2c.addressed := msgs, 0, 0, false;
    i2c.err, i2c.done, i2c.bufs, i2c.dev := None, false, bufs, dev;
    i2c.fifo, i2c.coming, i2c.trace := [], sends, [];
    i2c.Fill();
    assert [] + Program(msgs, BEGIN) == Program(msgs, BEGIN);
  }

  /** What the run of a list gives: its events, and the bytes of its reads. */
  lemma ListRuns(msgs: seq<Msg>, dev: Device, l: List, rx: seq<RxEntry>, c0: Cursor, c: Cursor,
                 trace: seq<Bus>, coming: Bytes)
    requires Filled(msgs, dev, l, rx, c0, c)
    requires trace + Program(msgs, c0) == Program(msgs, BEGIN) && coming == Stream(msgs, dev, c0)
    ensures var n := Receives(Exec(l.cmds, l.tx));
            n <= |coming| && coming[..n] == RxBytes(dev, rx) && coming[n..] == Stream(msgs, dev, c)
    ensures (trace + Exec(l.cmds, l.tx)) + (if c.msg < |msgs| then Program(msgs, c) else []) == Program(msgs, BEGIN)
    ensures l.cmds != [] && l.cmds[|l.cmds| - 1] == if c.msg < |msgs| then End else Stop
    ensures Covers(msgs, rx, c0, c) && EntriesOk(msgs, rx)
  {
    hide Exec, Program, Stream, RxBytes, Receives, Covers, EntriesOk;
    Assoc(trace, Exec(l.cmds, l.tx), if c.msg < |msgs| then Program(msgs, c) else []);
  }

  /** A list runs to its end, and the interrupt is handled. */
  method RunList(i2c: Controller, ghost c0: Cursor, ghost b0: seq<Bytes>)
    requires !i2c.done && Running(i2c, c0, b0)
    modifies i2c
    ensures i2c.msgs == old(i2c.msgs) && i2c.dev == old(i2c.dev) && i2c.err.None?
    ensures i2c.done <==> old(i2c.msg) == |i2c.msgs|
    ensures !i2c.done ==> Running(i2c, old(i2c.At()), b0) && Work(i2c.msgs, i2c.At()) < Work(i2c.msgs, old(i2c.At()))
    ensures i2c.done ==> i2c.trace == Program(i2c.msgs, BEGIN) && ReadUpTo(i2c.msgs, i2c.dev, b0, i2c.bufs, old(i2c.At()))
  {
    hide Exec, Program, Stream, RxBytes, Receives, Filled, ReadUpTo, Drained, Covers, EntriesOk, Work;
    ghost var c, rx, b := i2c.At(), i2c.rx, i2c.bufs;
    ListRuns(i2c.msgs, i2c.dev, i2c.list, rx, c0, c, i2c.trace, i2c.coming);
    i2c.Execute();
    var end := i2c.list.cmds[|i2c.list.cmds| - 1];
    var handled := i2c.HandleInterrupt(Interrupt(false, false, false, end.End?, end.Stop?));
    DrainedReads(i2c.msgs, i2c.dev, b0, b, i2c.bufs, rx, c0, c);
  }

  /** Some events of the next list are the next ones of the program. */
  lemma PartOfProgram(msgs: seq<Msg>, dev: Device, l: List, rx: seq<RxEntry>, c0: Cursor, c: Cursor,
                      trace: seq<Bus>, n: nat)
    requires Filled(msgs, dev, l, rx, c0, c) && trace + Program(msgs, c0) == Program(msgs, BEGIN)
    ensures trace <= trace + Part(Exec(l.cmds, l.tx), n) <= Program(msgs, BEGIN)
  {
    hide Exec, Program, Stream, RxBytes, Receives, Covers, EntriesOk;
    var e, rest := Exec(l.cmds, l.tx), if c.msg < |msgs| then Program(msgs, c) else [];
    assert Part(e, n) <= e;
    Assoc(trace, e, rest);
    assert trace + Part(e, n) <= (trace + e) + rest;
  }

  function ErrorAfter(outcome: Outcome): Option<Error>
    requires !outcome.Runs?
  {
    if outcome.Faults? then ErrorOf(outcome.status) else Some(TimedOut)
  }

  /** A list ends without END or STOP: by an error interrupt, or by the timeout of the wait. */
  method FailList(i2c: Controller, outcome: Outcome, ghost c0: Cursor, ghost b0: seq<Bytes>)
    requires !i2c.done && Running(i2c, c0, b0)
    requires !outcome.Runs? && (outcome.Faults? ==> Failed(outcome.status))
    modifies i2c
    ensures i2c.msgs == old(i2c.msgs) && i2c.dev == old(i2c.dev) && i2c.done
    ensures i2c.err == ErrorAfter(outcome) && i2c.err.Some? && i2c.err != Some(NotSupported)
    ensures i2c.trace == old(i2c.trace) + Part(Exec(old(i2c.list.cmds), old(i2c.list.tx)), outcome.seen)
    ensures i2c.trace <= Program(i2c.msgs, BEGIN)
    ensures ReadUpTo(i2c.msgs, i2c.dev, b0, i2c.bufs, c0)
  {
    hide Filled, Program, ReadUpTo, Drained, Stream, Exec, Part;
    PartOfProgram(i2c.msgs, i2c.dev, i2c.list, i2c.rx, c0, i2c.At(), i2c.trace, outcome.seen);
    i2c.ExecutePart(outcome.seen);
    if outcome.Faults? {
      var handled := i2c.HandleInterrupt(outcome.status);
    } else {
      i2c.err, i2c.done := Some(TimedOut), true;
    }
  }

  // ---- The program of a transfer ----

  /** What the bus shows of one message: START, the address with the read bit as bit 0, and the data.
      Each received byte but the last gets an ACK, and the last a NACK. */
  ghost predicate IsMessage(m: Msg, events: seq<Bus>) {
    && |events| == 2 + m.Len()
    && events[0] == Start
    && events[1].Sent? && events[1].b / 2 == m.addr && (events[1].b % 2 == 1 <==> m.ReadMsg?)
    && forall k :: 2 <= k < |events| ==>
         events[k] == if m.WriteMsg? then Sent(m.out[k - 2]) else Received(k < |events| - 1)
  }

  /** What the bus shows of a transfer: its messages, one after the other, with one STOP at the end. */
  ghost predicate IsTransfer(msgs: seq<Msg>, events: seq<Bus>) {
    if msgs == [] then events == [StopCondition]
    else
      var n := 2 + msgs[0].Len();
      n <= |events| && IsMessage(msgs[0], events[..n]) && IsTransfer(msgs[1..], events[n..])
  }

  lemma MessageShape(m: Msg)
    ensures IsMessage(m, Header(m) + Data(m, 0))
  {
    if m.WriteMsg? {
      assert m.out[0..] == m.out;
    }
  }

  /** The program of the messages is what the bus has to show of them. */
  lemma {:induction false} ProgramShape(msgs: seq<Msg>, i: nat)
    requires i <= |msgs|
    ensures IsTransfer(msgs[i..], Program(msgs, Cursor(i, 0, false)))
    decreases |msgs| - i
  {
    hide Header, Data, IsMessage;
    if i < |msgs| {
      var h, d, rest := Header(msgs[i]), Data(msgs[i], 0), Program(msgs, Cursor(i + 1, 0, false));
      ProgramShape(msgs, i + 1);
      assert msgs[i..][1..] == msgs[i + 1..];
      MessageShape(msgs[i]);
      MessageLength(msgs[i], h + d);
      Assoc(h, d, rest);
      assert (h + d + rest)[..|h + d|] == h + d && (h + d + rest)[|h + d|..] == rest;
    }
  }

  lemma MessageLength(m: Msg, events: seq<Bus>)
    requires IsMessage(m, events)
    ensures |events| == 2 + m.Len()
  {
  }

  /** And nothing else is. */
  lemma {:induction false} TransferIsUnique(msgs: seq<Msg>, a: seq<Bus>, b: seq<Bus>)
    requires IsTransfer(msgs, a) && IsTransfer(msgs, b)
    ensures a == b
  {
    if msgs != [] {
      var n := 2 + msgs[0].Len();
      SameMessage(msgs[0], a[..n], b[..n]);
      TransferIsUnique(msgs[1..], a[n..], b[n..]);
      assert a == a[..n] + a[n..] && b == b[..n] + b[n..];
    }
  }

  lemma SameMessage(m: Msg, a: seq<Bus>, b: seq<Bus>)
    requires IsMessage(m, a) && IsMessage(m, b)
    ensures a == b
  {
    assert a[1].b == 2 * m.addr + (if m.ReadMsg? then 1 else 0) == b[1].b;
    assert |a| == |b| && forall k :: 0 <= k < |a| ==> a[k] == b[k];
  }

  predicate TenBit(msgs: seq<Msg>) {
    exists i :: 0 <= i < |msgs| && msgs[i].tenBit
  }

  /** List `k` is the first one that does not run to its end. */
  predicate FailsFirst(outcomes: seq<Outcome>, k: nat) {
    k < |outcomes| && !outcomes[k].Runs? && forall j :: 0 <= j < k ==> outcomes[j].Runs?
  }

  /** esp32s31_i2c_xfer(), with its interrupts.  `outcomes[k]` says how the k-th list ends; a
      list without an outcome runs.  Without an error, the bus has seen exactly the messages
      and one STOP, and each read buffer is what the device sent.  With an error, the bus has
      seen a first part of it, also of the list that failed, and the buffers have no other bytes. */
  method Transfer(i2c: Controller, msgs: seq<Msg>, bufs: seq<Bytes>, ghost dev: Device, sends: Bytes,
                  outcomes: seq<Outcome>)
    returns (err: Option<Error>)
    requires |bufs| == |msgs| && forall i :: 0 <= i < |msgs| && msgs[i].ReadMsg? ==> |bufs[i]| == msgs[i].size
    requires sends == Stream(msgs, dev, BEGIN)
    requires forall o :: o in outcomes && o.Faults? ==> Failed(o.status)
    modifies i2c
    ensures err == Some(NotSupported) <==> TenBit(msgs)
    ensures err == Some(NotSupported) ==> i2c.bufs == old(i2c.bufs) && i2c.trace == old(i2c.trace)
    ensures IsTransfer(msgs, Program(msgs, BEGIN))
    ensures err.None? ==> i2c.trace == Program(msgs, BEGIN) && |i2c.bufs| == |msgs|
    ensures err.None? ==> forall i :: 0 <= i < |msgs| ==>
              if msgs[i].WriteMsg? then i2c.bufs[i] == bufs[i]
              else |i2c.bufs[i]| == msgs[i].size && forall k :: 0 <= k < msgs[i].size ==> i2c.bufs[i][k] == dev(i, k)
    ensures err.Some? && err != Some(NotSupported) ==>
              && i2c.trace <= Program(msgs, BEGIN) && ReadUpTo(msgs, dev, bufs, i2c.bufs, BEGIN)
              && exists k: nat :: FailsFirst(outcomes, k) && err == ErrorAfter(outcomes[k])
    ensures !TenBit(msgs) && (forall o :: o in outcomes ==> o.Runs?) ==> err.None?
  {
    hide Running, Program, ReadUpTo, Work, Stream, TenBit, DeviceBytes, IsTransfer, ErrorAfter;
    ProgramShape(msgs, 0);
    assert msgs[0..] == msgs;
    if TenBit(msgs) {
      return Some(NotSupported);
    }
    Begin(i2c, msgs, bufs, dev, sends);
    ghost var c0 := BEGIN;
    var k := 0;
    while !i2c.done
      invariant i2c.msgs == msgs && i2c.dev == dev
      invariant !i2c.done ==> Running(i2c, c0, bufs) && i2c.err.None?
      invariant i2c.err.None? ==> forall j :: 0 <= j < k && j < |outcomes| ==> outcomes[j].Runs?
      invariant i2c.done && i2c.err.None? ==>
                  i2c.trace == Program(msgs, BEGIN) && ReadUpTo(msgs, dev, bufs, i2c.bufs, c0) && c0.msg >= |msgs|
      invariant i2c.done && i2c.err.Some? ==>
                  i2c.err != Some(NotSupported)
                  && i2c.trace <= Program(msgs, BEGIN) && ReadUpTo(msgs, dev, bufs, i2c.bufs, c0)
                  && 0 < k && FailsFirst(outcomes, k - 1) && i2c.err == ErrorAfter(outcomes[k - 1])
      decreases if i2c.done then 0 else 1 + Work(msgs, i2c.At())
    {
      NoErrorYet(i2c, c0, bufs);
      if k < |outcomes| && !outcomes[k].Runs? {
        FailList(i2c, outcomes[k], c0, bufs);
      } else {
        ghost var c := i2c.At();
        RunList(i2c, c0, bufs);
        c0 := c;
      }
      k := k + 1;
    }
    err := i2c.err;
    if err.None? {
      Finished(msgs, dev, bufs, i2c.bufs, c0);
    } else {
      UpToBegin(msgs, dev, bufs, i2c.bufs, c0);
    }
  }

  lemma NoErrorYet(i2c: Controller, c0: Cursor, b0: seq<Bytes>)
    requires Running(i2c, c0, b0)
    ensures i2c.err.None? && i2c.msg <= |i2c.msgs|
  {
    hide Filled, Program, Stream, ReadUpTo;
  }

  lemma Finished(msgs: seq<Msg>, dev: Device, b0: seq<Bytes>, b: seq<Bytes>, c: Cursor)
    requires ReadUpTo(msgs, dev, b0, b, c) && c.msg >= |msgs|
    requires forall i :: 0 <= i < |msgs| && msgs[i].ReadMsg? ==> |b0[i]| == msgs[i].size
    ensures |b| == |msgs| && forall i :: 0 <= i < |msgs| ==>
              if msgs[i].WriteMsg? then b[i] == b0[i]
              else |b[i]| == msgs[i].size && forall k :: 0 <= k < msgs[i].size ==> b[i][k] == dev(i, k)
  {
    forall i | 0 <= i < |msgs| && msgs[i].ReadMsg? ensures forall k :: 0 <= k < msgs[i].size ==> b[i][k] == dev(i, k) {
      AllRead(msgs, dev, b0, b, c, i);
    }
  }

  lemma UpToBegin(msgs: seq<Msg>, dev: Device, b0: seq<Bytes>, b: seq<Bytes>, c: Cursor)
    requires ReadUpTo(msgs, dev, b0, b, c)
    ensures ReadUpTo(msgs, dev, b0, b, BEGIN)
  {
  }
}
