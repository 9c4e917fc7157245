/**
 The I2C driver: the list builder, the drain of the RX FIFO, the interrupt handler and the
 transfer.  The controller hardware is the method Execute: it runs the list on the bus and
 fills the RX FIFO with the next bytes of the devices.
 */
module I2cController {
  import opened Words
  import opened I2cSpec
  import opened I2cLists

  // ---- The reads of a list ----

  ghost predicate EntriesOk(msgs: seq<Msg>, rx: seq<RxEntry>) {
    forall e :: e in rx ==> e.msg < |msgs| && msgs[e.msg].ReadMsg? && e.pos + e.len <= msgs[e.msg].size
  }

  /** The bytes that belong to the reads of a list. */
  function RxBytes(dev: Device, rx: seq<RxEntry>): Bytes {
    if rx == [] then []
    else
      DeviceBytes(dev, rx[0].msg, rx[0].pos, rx[0].len) + RxBytes(dev, rx[1..])
  }

  /** Byte `k` of message `i` comes before the cursor. */
  predicate Before(c: Cursor, i: nat, k: nat) {
    i < c.msg || (i == c.msg && k < c.pos)
  }

  ghost predicate Covered(rx: seq<RxEntry>, i: nat, k: nat) {
    exists e :: e in rx && e.msg == i && e.pos <= k < e.pos + e.len
  }

  /** The entries cover each read byte between the two cursors. */
  ghost predicate Covers(msgs: seq<Msg>, rx: seq<RxEntry>, c0: Cursor, c1: Cursor) {
    forall i: nat, k: nat ::
      i < |msgs| && msgs[i].ReadMsg? && k < msgs[i].size && Before(c1, i, k) && !Before(c0, i, k) ==>
        Covered(rx, i, k)
  }

  lemma StreamStep(msgs: seq<Msg>, dev: Device, c: Cursor, n: nat)
    requires c.msg < |msgs| && msgs[c.msg].ReadMsg? && c.pos + n <= msgs[c.msg].size
    ensures Stream(msgs, dev, c) ==
            DeviceBytes(dev, c.msg, c.pos, n) + Stream(msgs, dev, c.(pos := c.pos + n))
  {
    var d, d' := DeviceBytes(dev, c.msg, c.pos, n), DeviceBytes(dev, c.msg, c.pos + n, msgs[c.msg].size - c.pos - n);
    assert DeviceBytes(dev, c.msg, c.pos, msgs[c.msg].size - c.pos) == d + d';
    Assoc(d, d', Stream(msgs, dev, Cursor(c.msg + 1, 0, false)));
  }

  /** A cursor that passes no read byte is at the same place in the stream. */
  ghost predicate Passes(msgs: seq<Msg>, c: Cursor, c': Cursor)
    requires c.msg < |msgs|
  {
    || (c'.msg == c.msg && (c'.pos == c.pos || msgs[c.msg].WriteMsg?))
    || (c' == Cursor(c.msg + 1, 0, false) && c.pos == msgs[c.msg].Len())
  }

  lemma StreamSkips(msgs: seq<Msg>, dev: Device, c: Cursor, c': Cursor)
    requires c.msg < |msgs| && Passes(msgs, c, c')
    ensures Stream(msgs, dev, c) == Stream(msgs, dev, c')
  {
    if c'.msg != c.msg {
      assert [] + Stream(msgs, dev, c') == Stream(msgs, dev, c');
    }
  }

  lemma {:induction false} RxBytesAppend(dev: Device, rx: seq<RxEntry>, e: RxEntry)
    ensures RxBytes(dev, rx + [e]) == RxBytes(dev, rx) + DeviceBytes(dev, e.msg, e.pos, e.len)
  {
    hide DeviceBytes;
    var all := rx + [e];
    if rx == [] {
      assert all == [e] && [e][1..] == [];
      var d := DeviceBytes(dev, e.msg, e.pos, e.len);
      assert d + [] == d && [] + d == d;
    } else {
      assert all[0] == rx[0] && all[1..] == rx[1..] + [e];
      RxBytesAppend(dev, rx[1..], e);
      Assoc(DeviceBytes(dev, rx[0].msg, rx[0].pos, rx[0].len), RxBytes(dev, rx[1..]),
            DeviceBytes(dev, e.msg, e.pos, e.len));
    }
  }

  lemma CoversMore(msgs: seq<Msg>, rx: seq<RxEntry>, c0: Cursor, c: Cursor, n: nat)
    requires Covers(msgs, rx, c0, c)
    ensures Covers(msgs, rx + [RxEntry(c.msg, c.pos, n)], c0, c.(pos := c.pos + n))
  {
    var e := RxEntry(c.msg, c.pos, n);
    var all := rx + [e];
    assert all[|rx|] == e;
    forall i: nat, k: nat | i < |msgs| && msgs[i].ReadMsg? && k < msgs[i].size &&
                            Before(c.(pos := c.pos + n), i, k) && !Before(c0, i, k)
      ensures Covered(all, i, k)
    {
      if Before(c, i, k) {
        assert Covered(rx, i, k);
        var f :| f in rx && f.msg == i && f.pos <= k < f.pos + f.len;
        assert f in all;
      } else {
        assert e in all;
      }
    }
  }

  lemma CoversSame(msgs: seq<Msg>, rx: seq<RxEntry>, c0: Cursor, c: Cursor, c': Cursor)
    requires Covers(msgs, rx, c0, c) && c.msg < |msgs| && Passes(msgs, c, c')
    ensures Covers(msgs, rx, c0, c')
  {
    forall i: nat, k: nat | i < |msgs| && msgs[i].ReadMsg? && k < msgs[i].size &&
                            Before(c', i, k) && !Before(c0, i, k)
      ensures Covered(rx, i, k)
    {
      assert Before(c, i, k);
    }
  }

  /** What filling has kept between the cursors `c0` and `c`: the program, the stream, and the
      entries. */
  ghost predicate Filling(msgs: seq<Msg>, dev: Device, l: List, rx: seq<RxEntry>, c0: Cursor, c: Cursor)
  {
    && ListOk(l) && |rx| <= |l.cmds|
    && Whole(msgs, l, c) == Program(msgs, c0)
    && EntriesOk(msgs, rx)
    && RxBytes(dev, rx) + Stream(msgs, dev, c) == Stream(msgs, dev, c0)
    && |RxBytes(dev, rx)| == l.rx
    && Covers(msgs, rx, c0, c)
  }

  lemma AddressKeeps(msgs: seq<Msg>, dev: Device, l: List, rx: seq<RxEntry>, c0: Cursor, c: Cursor)
    requires Filling(msgs, dev, l, rx, c0, c) && c.msg < |msgs| && !c.addressed
    requires |l.cmds| + 3 <= NCMDS - 1 && |l.tx| < FIFO_SIZE
    ensures var l' := AddCommand(AddCommand(l, RStart, []), Write(1), [AddressByte(msgs[c.msg])]);
            Filling(msgs, dev, l', rx, c0, c.(addressed := true))
  {
    hide ListOk, Program, Exec, Stream, RxBytes, Header, Whole;
    AddressStep(msgs, l, c);
    StreamSkips(msgs, dev, c, c.(addressed := true));
  }

  lemma WriteKeeps(msgs: seq<Msg>, dev: Device, l: List, rx: seq<RxEntry>, c0: Cursor, c: Cursor, n: nat)
    requires Filling(msgs, dev, l, rx, c0, c) && c.msg < |msgs| && c.addressed && msgs[c.msg].WriteMsg?
    requires c.pos + n <= msgs[c.msg].Len() && |l.cmds| + 1 <= NCMDS - 1 && |l.tx| + n <= FIFO_SIZE
    ensures var l' := AddCommand(l, Write(n), msgs[c.msg].out[c.pos..c.pos + n]);
            Filling(msgs, dev, l', rx, c0, c.(pos := c.pos + n))
  {
    hide ListOk, Program, Exec, Stream, RxBytes, Whole, Covers;
    WriteStep(msgs, l, c, n);
    StreamSkips(msgs, dev, c, c.(pos := c.pos + n));
    CoversSame(msgs, rx, c0, c, c.(pos := c.pos + n));
  }

  lemma ReadKeeps(msgs: seq<Msg>, dev: Device, l: List, rx: seq<RxEntry>, c0: Cursor, c: Cursor, n: nat, last: bool)
    requires Filling(msgs, dev, l, rx, c0, c) && c.msg < |msgs| && c.addressed && msgs[c.msg].ReadMsg?
    requires 0 < n && c.pos + n <= msgs[c.msg].Len() && last == (c.pos + n == msgs[c.msg].Len())
    requires l.rx + n <= FIFO_SIZE
    requires |l.cmds| + (if n > 1 || !last then 1 else 0) + (if last then 1 else 0) <= NCMDS - 1
    ensures Filling(msgs, dev, AddRead(l, n, last), rx + [RxEntry(c.msg, c.pos, n)], c0, c.(pos := c.pos + n))
    ensures AddRead(l, n, last).cmds != []
  {
    var e := RxEntry(c.msg, c.pos, n);
    assert e in [e];
    hide ListOk, Program, Exec, Whole, Covers, AddRead;
    ReadStep(msgs, l, c, n, last);
    StreamStep(msgs, dev, c, n);
    RxBytesAppend(dev, rx, e);
    hide Stream, RxBytes;
    Assoc(RxBytes(dev, rx), DeviceBytes(dev, c.msg, c.pos, n), Stream(msgs, dev, c.(pos := c.pos + n)));
    CoversMore(msgs, rx, c0, c, n);
  }

  lemma NextKeeps(msgs: seq<Msg>, dev: Device, l: List, rx: seq<RxEntry>, c0: Cursor, c: Cursor)
    requires Filling(msgs, dev, l, rx, c0, c) && c.msg < |msgs| && c.addressed && c.pos == msgs[c.msg].Len()
    ensures var c' := Cursor(c.msg + 1, 0, false);
            Filling(msgs, dev, l, rx, c0, c') && Work(msgs, c') == Work(msgs, c)
  {
    hide ListOk, Program, Exec, Stream, RxBytes, Covers, Work;
    NextMessage(msgs, c);
    StreamSkips(msgs, dev, c, Cursor(c.msg + 1, 0, false));
    CoversSame(msgs, rx, c0, c, Cursor(c.msg + 1, 0, false));
  }

  lemma WorkDrops(msgs: seq<Msg>, c: Cursor, n: nat)
    requires c.msg < |msgs|
    ensures !c.addressed ==> Work(msgs, c.(addressed := true)) < Work(msgs, c)
    ensures c.addressed && 0 < n && c.pos + n <= msgs[c.msg].Len() ==> Work(msgs, c.(pos := c.pos + n)) < Work(msgs, c)
  {
  }

  // ---- The driver ----

  datatype Error = Nak | ArbitrationLost | TimedOut | NotSupported

  datatype Interrupt = Interrupt(nak: bool, arbitrationLost: bool, timeout: bool, endDetect: bool, complete: bool)

  class Controller {
    // What the transfer has to do, and the cursor in it
    var msgs: seq<Msg>
    var msg: nat
    var pos: nat
    var addressed: bool
    var bufs: seq<Bytes>
    var err: Option<Error>
    var done: bool
    // The running list and its reads
    var list: List
    var rx: seq<RxEntry>
    // The hardware: the RX FIFO, the bytes that the devices send next, and what was on the bus
    var fifo: Bytes
    var coming: Bytes
    ghost var trace: seq<Bus>
    ghost var dev: Device

    constructor ()
    {
      msgs, msg, pos, addressed, bufs, err, done := [], 0, 0, false, [], None, true;
      list, rx, fifo, coming, trace, dev := EMPTY, [], [], [], [], (_, _) => 0;
    }

    ghost function At(): Cursor
      reads this
    {
      Cursor(msg, pos, addressed)
    }

    ghost predicate Valid()
      reads this
    {
      && msg <= |msgs| && (msg < |msgs| ==> pos <= msgs[msg].Len())
      && (msg == |msgs| || !addressed ==> pos == 0) && (msg == |msgs| ==> !addressed)
      && |bufs| == |msgs|
      && (forall i :: 0 <= i < |msgs| && msgs[i].ReadMsg? ==> |bufs[i]| == msgs[i].size)
    }

    /** A message that is addressed has a byte left. */
    ghost predicate Settled()
      reads this
    {
      addressed && msg < |msgs| ==> pos < msgs[msg].Len()
    }

    ghost predicate FillingFrom(c0: Cursor)
      reads this
    {
      Filling(msgs, dev, list, rx, c0, At())
    }

    /** esp32s31_i2c_queue_addr() */
    method QueueAddress(ghost c0: Cursor) returns (queued: bool)
      requires Valid() && msg < |msgs| && !addressed && FillingFrom(c0)
      modifies `list, `addressed
      ensures Valid() && FillingFrom(c0)
      ensures queued ==> addressed && Work(msgs, At()) < Work(msgs, old(At()))
      ensures queued ==>
                && list.cmds == old(list.cmds) + [RStart, Write(1)]
                && |list.tx| == |old(list.tx)| + 1 && old(list.tx) <= list.tx
                && var b := list.tx[|old(list.tx)|];
                   b / 2 == msgs[msg].addr && (b % 2 == 1 <==> msgs[msg].ReadMsg?)
      ensures !queued ==> !addressed && list == old(list) && list != EMPTY
    {
      hide Whole, Program, Exec, Stream, RxBytes, Covers, Open, TxUse, RxUse, EntriesOk;
      var m := msgs[msg];
      if |list.cmds| + 3 > NCMDS - 1 || |list.tx| == FIFO_SIZE {
        assert list != EMPTY;
        return false;
      }
      AddressKeeps(msgs, dev, list, rx, c0, At());
      WorkDrops(msgs, At(), 0);
      hide Filling, AddressByte, Work;
      list := AddCommand(list, RStart, []);
      list := AddCommand(list, Write(1), [AddressByte(m)]);
      addressed := true;
      queued := true;
    }

    /** esp32s31_i2c_queue_read() */
    method QueueRead(ghost c0: Cursor) returns (queued: bool)
      requires Valid() && msg < |msgs| && addressed && msgs[msg].ReadMsg? && Settled()
      requires FillingFrom(c0)
      modifies `list, `rx, `pos
      ensures Valid() && FillingFrom(c0)
      ensures queued ==> Work(msgs, At()) < Work(msgs, old(At()))
      ensures !queued ==> list == old(list) && pos == old(pos) && list != EMPTY
    {
      hide Whole, Program, Exec, Stream, RxBytes, Covers, Open, TxUse, RxUse, EntriesOk;
      var m := msgs[msg];
      var left := m.size - pos;
      var n := if left < FIFO_SIZE - list.rx then left else FIFO_SIZE - list.rx;
      var last := n == left;
      var bulk := if last then n - 1 else n;
      if n == 0 || |list.cmds| + (if bulk > 0 then 1 else 0) + (if last then 1 else 0) > NCMDS - 1 {
        return false;
      }
      ReadKeeps(msgs, dev, list, rx, c0, At(), n, last);
      WorkDrops(msgs, At(), n);
      hide Filling, Work;
      ghost var l0 := list;
      rx := rx + [RxEntry(msg, pos, n)];
      if bulk > 0 {
        list := AddCommand(list, Read(bulk, false), []);
      }
      if last {
        list := AddCommand(list, Read(1, true), []);
      }
      assert list == AddRead(l0, n, last);
      pos := pos + n;
      queued := true;
    }

    /** esp32s31_i2c_queue_write() */
    method QueueWrite(ghost c0: Cursor) returns (queued: bool)
      requires Valid() && msg < |msgs| && addressed && msgs[msg].WriteMsg? && Settled()
      requires FillingFrom(c0)
      modifies `list, `pos
      ensures Valid() && FillingFrom(c0)
      ensures queued ==> Work(msgs, At()) < Work(msgs, old(At()))
      ensures !queued ==> list == old(list) && pos == old(pos) && list != EMPTY
    {
      hide Whole, Program, Exec, Stream, RxBytes, Covers, Open, TxUse, RxUse, EntriesOk;
      var m := msgs[msg];
      var n := if |m.out| - pos < FIFO_SIZE - |list.tx| then |m.out| - pos else FIFO_SIZE - |list.tx|;
      if n == 0 || |list.cmds| + 1 > NCMDS - 1 {
        return false;
      }
      ghost var l0, c := list, At();
      WriteKeeps(msgs, dev, list, rx, c0, c, n);
      WorkDrops(msgs, c, n);
      hide Filling, Work;
      list := list.(cmds := list.cmds + [Write(n)]);
      var k := 0;
      while k < n
        invariant k <= n && pos == c.pos + k
        invariant list == l0.(cmds := l0.cmds + [Write(n)], tx := l0.tx + m.out[c.pos..c.pos + k])
      {
        list := list.(tx := list.tx + [m.out[pos]]);
        pos := pos + 1;
        k := k + 1;
      }
      assert list == AddCommand(l0, Write(n), m.out[c.pos..c.pos + n]);
      queued := true;
    }

    /** One turn of the loop of esp32s31_i2c_fill(). */
    method QueueNext(ghost c0: Cursor) returns (queued: bool)
      requires Valid() && Settled() && msg < |msgs| && FillingFrom(c0)
      modifies `list, `rx, `msg, `pos, `addressed
      ensures Valid() && Settled() && FillingFrom(c0)
      ensures queued ==> Work(msgs, At()) < Work(msgs, old(At()))
      ensures !queued ==> At() == old(At()) && list == old(list) && list != EMPTY
    {
      hide Filling, Work;
      if !addressed {
        queued := QueueAddress(c0);
      } else if msgs[msg].ReadMsg? {
        queued := QueueRead(c0);
      } else {
        queued := QueueWrite(c0);
      }
      if queued && pos == msgs[msg].Len() {
        NextKeeps(msgs, dev, list, rx, c0, At());
        msg, pos, addressed := msg + 1, 0, false;
      }
    }

    /** esp32s31_i2c_fill(): one list.  What it does on the bus, followed by the program that is
        left, is the program that was left before. */
    method Fill()
      requires Valid() && Settled()
      modifies `list, `rx, `msg, `pos, `addressed
      ensures Valid() && Settled() && Filled(msgs, dev, list, rx, old(At()), At())
      ensures old(msg) < |msgs| ==> Work(msgs, At()) < Work(msgs, old(At()))
    {
      hide Filling, Filled, Work;
      ghost var c0 := At();
      list, rx := EMPTY, [];
      EmptyFills(msgs, dev, c0);
      while msg < |msgs|
        invariant Valid() && Settled() && FillingFrom(c0)
        invariant if At() == c0 then list == EMPTY else Work(msgs, At()) < Work(msgs, c0)
        decreases Work(msgs, At())
      {
        var queued := QueueNext(c0);
        if !queued {
          break;
        }
      }
      ListEnds(msgs, dev, list, rx, c0, At());
      list := list.(cmds := list.cmds + [if msg < |msgs| then End else Stop]);
    }

    /** One entry of esp32s31_i2c_drain(). */
    method DrainEntry(e: RxEntry, ghost rest: Bytes)
      requires e.msg < |bufs| && e.pos + e.len <= |bufs[e.msg]|
      requires fifo == DeviceBytes(dev, e.msg, e.pos, e.len) + rest
      modifies `bufs, `fifo
      ensures fifo == rest && |bufs| == |old(bufs)|
      ensures forall i :: 0 <= i < |bufs| && i != e.msg ==> bufs[i] == old(bufs)[i]
      ensures bufs[e.msg] == old(bufs)[e.msg][..e.pos] + DeviceBytes(dev, e.msg, e.pos, e.len)
                             + old(bufs)[e.msg][e.pos + e.len..]
    {
      ghost var b0, d := bufs, DeviceBytes(dev, e.msg, e.pos, e.len);
      var j := 0;
      while j < e.len
        invariant j <= e.len && fifo == d[j..] + rest
        invariant |bufs| == |b0| && forall i :: 0 <= i < |bufs| && i != e.msg ==> bufs[i] == b0[i]
        invariant bufs[e.msg] == b0[e.msg][..e.pos] + d[..j] + b0[e.msg][e.pos + j..]
      {
        var b := bufs[e.msg][e.pos + j := fifo[0]];
        assert fifo[0] == d[j] && d[..j + 1] == d[..j] + [d[j]];
        bufs := bufs[e.msg := b];
        fifo := fifo[1..];
        j := j + 1;
      }
    }

    /** esp32s31_i2c_drain(): each covered byte gets what the device sent; nothing else changes. */
    method Drain()
      requires Valid() && EntriesOk(msgs, rx) && fifo == RxBytes(dev, rx)
      modifies `bufs, `fifo, `rx
      ensures Valid() && rx == [] && fifo == [] && Drained(dev, old(rx), old(bufs), bufs)
    {
      var i := 0;
      assert rx[0..] == rx;
      while i < |rx|
        invariant i <= |rx| && rx == old(rx) && Valid()
        invariant fifo == RxBytes(dev, rx[i..]) && Drained(dev, rx[..i], old(bufs), bufs)
      {
        hide Drained;
        ghost var b0 := bufs;
        assert rx[i] in rx && rx[i..][1..] == rx[i + 1..];
        DrainEntry(rx[i], RxBytes(dev, rx[i + 1..]));
        DrainedMore(dev, rx[..i], rx[i], old(bufs), b0, bufs);
        assert rx[..i + 1] == rx[..i] + [rx[i]];
        i := i + 1;
      }
      assert rx[..|rx|] == rx;
      rx := [];
    }

    /** The hardware runs the list to its END or STOP. */
    method Execute()
      requires Receives(Exec(list.cmds, list.tx)) <= |coming|
      modifies `fifo, `coming, `trace
      ensures trace == old(trace) + Exec(list.cmds, list.tx)
      ensures var n := Receives(Exec(list.cmds, list.tx));
              fifo == old(fifo) + old(coming)[..n] && coming == old(coming)[n..]
    {
      var n := Receives(Exec(list.cmds, list.tx));
      trace := trace + Exec(list.cmds, list.tx);
      fifo, coming := fifo + coming[..n], coming[n..];
    }

    /** The controller stops after some events of its list. */
    method ExecutePart(n: nat)
      modifies `trace
      ensures trace == old(trace) + Part(Exec(list.cmds, list.tx), n)
    {
      trace := trace + Part(Exec(list.cmds, list.tx), n);
    }

    /** esp32s31_i2c_irq(): an error ends the transfer and leaves the buffers; after END, the
        received bytes are stored and the next list is ready; after STOP, the transfer is done. */
    method HandleInterrupt(status: Interrupt) returns (handled: bool)
      requires Valid() && Settled() && err.None?
      requires !Failed(status) && (status.endDetect || status.complete) ==>
                 EntriesOk(msgs, rx) && fifo == RxBytes(dev, rx)
      modifies `err, `done, `bufs, `fifo, `rx, `list, `msg, `pos, `addressed
      ensures Valid() && Settled()
      ensures handled <==> status != Interrupt(false, false, false, false, false)
      ensures err == ErrorOf(status)
      ensures err.Some? ==> done && bufs == old(bufs) && At() == old(At())
      ensures err.None? && !status.endDetect && !status.complete ==>
                done == old(done) && bufs == old(bufs) && At() == old(At()) && list == old(list) && rx == old(rx)
      ensures err.None? && (status.endDetect || status.complete) ==>
                fifo == [] && Drained(dev, old(rx), old(bufs), bufs)
      ensures err.None? && status.endDetect ==>
                && done == old(done) && Filled(msgs, dev, list, rx, old(At()), At())
                && (old(msg) < |msgs| ==> Work(msgs, At()) < Work(msgs, old(At())))
      ensures err.None? && !status.endDetect && status.complete ==> done && At() == old(At()) && list == old(list)
    {
      if status == Interrupt(false, false, false, false, false) {
        return false;
      }
      hide Drained, Filled, EntriesOk, RxBytes, Work;
      handled := true;
      if status.nak {
        err := Some(Nak);
      } else if status.arbitrationLost {
        err := Some(ArbitrationLost);
      } else if status.timeout {
        err := Some(TimedOut);
      }
      if err.None? && status.endDetect {
        Drain();
        Fill();
        return;
      }
      if err.Some? || status.complete {
        if err.None? {
          Drain();
        }
        done := true;
      }
    }
  }

  predicate Failed(status: Interrupt) {
    status.nak || status.arbitrationLost || status.timeout
  }

  function ErrorOf(status: Interrupt): Option<Error> {
    if status.nak then Some(Nak)
    else if status.arbitrationLost then Some(ArbitrationLost)
    else if status.timeout then Some(TimedOut)
    else None
  }

  /** `b1` is `b0` with the bytes of the devices at the covered places. */
  ghost predicate Drained(dev: Device, rx: seq<RxEntry>, b0: seq<Bytes>, b1: seq<Bytes>) {
    |b1| == |b0| &&
    forall i: nat :: i < |b0| ==>
      |b1[i]| == |b0[i]| &&
      forall k: nat :: k < |b0[i]| ==> b1[i][k] == if Covered(rx, i, k) then dev(i, k) else b0[i][k]
  }

  /** The first `n` events, or all that there are. */
  function Part(events: seq<Bus>, n: nat): seq<Bus> {
    if n < |events| then events[..n] else events
  }

  lemma DrainedMore(dev: Device, rx: seq<RxEntry>, e: RxEntry, b: seq<Bytes>, b0: seq<Bytes>, b1: seq<Bytes>)
    requires Drained(dev, rx, b, b0) && |b1| == |b0|
    requires e.msg < |b0| && e.pos + e.len <= |b0[e.msg]|
    requires forall i :: 0 <= i < |b0| && i != e.msg ==> b1[i] == b0[i]
    requires b1[e.msg] == b0[e.msg][..e.pos] + DeviceBytes(dev, e.msg, e.pos, e.len) + b0[e.msg][e.pos + e.len..]
    ensures Drained(dev, rx + [e], b, b1)
  {
    var all := rx + [e];
    forall i: nat, k: nat | i < |b| && k < |b[i]|
      ensures b1[i][k] == if Covered(all, i, k) then dev(i, k) else b[i][k]
    {
      if i == e.msg && e.pos <= k < e.pos + e.len {
        assert e in all;
      } else {
        assert Covered(all, i, k) <==> Covered(rx, i, k) by {
          if Covered(rx, i, k) {
            var f :| f in rx && f.msg == i && f.pos <= k < f.pos + f.len;
            assert f in all;
          }
        }
      }
    }
  }

  lemma EmptyFills(msgs: seq<Msg>, dev: Device, c: Cursor)
    ensures Filling(msgs, dev, EMPTY, [], c, c)
  {
    assert [] + Program(msgs, c) == Program(msgs, c);
    assert [] + Stream(msgs, dev, c) == Stream(msgs, dev, c);
  }

  /** A finished list from the cursor `c0` to `c`: it keeps to the limits of the controller; it
      ends with STOP at the end of the transfer, else with END; its bus events and the program
      left at `c` are the program at `c0`; its entries take the next bytes of the devices. */
  ghost predicate Filled(msgs: seq<Msg>, dev: Device, l: List, rx: seq<RxEntry>, c0: Cursor, c: Cursor) {
    && 0 < |l.cmds| <= NCMDS && |l.tx| <= FIFO_SIZE && l.rx <= FIFO_SIZE && |rx| < NCMDS
    && l.cmds[|l.cmds| - 1] == (if c.msg < |msgs| then End else Stop)
    && l.rx == Receives(Exec(l.cmds, l.tx))
    && Exec(l.cmds, l.tx) + (if c.msg < |msgs| then Program(msgs, c) else []) == Program(msgs, c0)
    && EntriesOk(msgs, rx) && |RxBytes(dev, rx)| == l.rx
    && RxBytes(dev, rx) + Stream(msgs, dev, c) == Stream(msgs, dev, c0)
    && Covers(msgs, rx, c0, c)
  }

  /** END or STOP closes the list. */
  lemma ListEnds(msgs: seq<Msg>, dev: Device, l: List, rx: seq<RxEntry>, c0: Cursor, c: Cursor)
    requires Filling(msgs, dev, l, rx, c0, c) && c.msg <= |msgs|
    ensures Filled(msgs, dev, l.(cmds := l.cmds + [if c.msg < |msgs| then End else Stop]), rx, c0, c)
  {
    hide Stream, RxBytes, Covers, Exec, ListOk, EntriesOk, Receives;
    var last := if c.msg < |msgs| then End else Stop;
    LastCommand(l, last);
    ListLimits(l);
    var e := Exec(l.cmds, l.tx);
    assert e + [] == e && (e + [StopCondition]) + [] == e + [StopCondition];
  }

  lemma ListLimits(l: List)
    requires ListOk(l)
    ensures |l.cmds| < NCMDS && |l.tx| <= FIFO_SIZE && l.rx <= FIFO_SIZE
  {
  }

  lemma LastCommand(l: List, last: Command)
    requires ListOk(l) && (last.End? || last.Stop?)
    ensures var cmds := l.cmds + [last];
            && Exec(cmds, l.tx) == Exec(l.cmds, l.tx) + (if last.End? then [] else [StopCondition])
            && Receives(Exec(cmds, l.tx)) == l.rx
  {
    var cmds := l.cmds + [last];
    ExecAppend(l.cmds, l.tx, last, []);
    ExecOne(last, []);
    assert l.tx + [] == l.tx;
    assert cmds[..|l.cmds|] == l.cmds;
    ExecReceives(cmds, l.tx);
    UseAppend(l.cmds, last);
    assert [last][1..] == [];
    hide Exec, Receives;
  }
}
