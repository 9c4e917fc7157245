/**
 What an I2C transfer means: the unbounded bus program of a list of messages, the bus events
 of one command list of the controller, and the bytes that the devices send.
 */
module I2cSpec {
  import opened Words

  const NCMDS := 8
  const FIFO_SIZE := 32

  type Address = a: int | 0 <= a < 128

  /** A message: the data of a write, or the number of bytes of a read. */
  datatype Msg =
    | WriteMsg(addr: Address, tenBit: bool, out: Bytes)
    | ReadMsg(addr: Address, tenBit: bool, size: nat)
  {
    function Len(): nat {
      if WriteMsg? then |out| else size
    }
  }

  /** Byte `k` that the device sends for message `i`. */
  type Device = (nat, nat) -> byte

  datatype Command = RStart | Write(bytes: nat) | Read(bytes: nat, nack: bool) | Stop | End

  datatype Bus = Start | Sent(b: byte) | Received(ack: bool) | StopCondition

  /** A place in the messages, and whether the address of this message is on the bus. */
  datatype Cursor = Cursor(msg: nat, pos: nat, addressed: bool)

  // ---- The reference: what the messages ask for ----

  /** i2c_8bit_addr_from_msg() */
  function AddressByte(m: Msg): (b: byte)
    ensures b / 2 == m.addr && (b % 2 == 1 <==> m.ReadMsg?)
  {
    2 * m.addr + if m.ReadMsg? then 1 else 0
  }

  function SentAll(bytes: Bytes): seq<Bus> {
    seq(|bytes|, i requires 0 <= i < |bytes| => Sent(bytes[i]))
  }

  /** `n` bytes of a read, all with ACK or all with NACK. */
  function ReceivedAll(n: nat, ack: bool): seq<Bus> {
    seq(n, _ => Received(ack))
  }

  /** The data of a message from `pos`: the last byte of a read gets a NACK. */
  function Data(m: Msg, pos: nat): seq<Bus> {
    if pos >= m.Len() then []
    else if m.WriteMsg? then SentAll(m.out[pos..])
    else seq(m.size - pos, i => Received(i < m.size - pos - 1))
  }

  function Header(m: Msg): seq<Bus> {
    [Start, Sent(AddressByte(m))]
  }

  /** The bus program that is left at `c`; at the start, it is the program of the transfer. */
  function Program(msgs: seq<Msg>, c: Cursor): seq<Bus>
    decreases |msgs| - c.msg
  {
    if c.msg >= |msgs| then [StopCondition]
    else
      var m := msgs[c.msg];
      (if c.addressed then [] else Header(m)) + (Data(m, c.pos) + Program(msgs, Cursor(c.msg + 1, 0, false)))
  }

  /** The bytes that the devices send from `c` on, in the order of the bus. */
  function Stream(msgs: seq<Msg>, dev: Device, c: Cursor): Bytes
    decreases |msgs| - c.msg
  {
    if c.msg >= |msgs| then []
    else
      var m := msgs[c.msg];
      (if m.ReadMsg? && c.pos <= m.size then DeviceBytes(dev, c.msg, c.pos, m.size - c.pos) else [])
      + Stream(msgs, dev, Cursor(c.msg + 1, 0, false))
  }

  function DeviceBytes(dev: Device, msg: nat, pos: nat, n: nat): Bytes {
    seq(n, k requires k >= 0 => dev(msg, pos + k))
  }

  /** The messages without their address on the bus, and the bytes that are left. */
  function Work(msgs: seq<Msg>, c: Cursor): nat
    decreases |msgs| - c.msg
  {
    if c.msg >= |msgs| then 0
    else
      (if c.addressed then 0 else 1)
      + (if c.pos <= msgs[c.msg].Len() then msgs[c.msg].Len() - c.pos else 0)
      + Work(msgs, Cursor(c.msg + 1, 0, false))
  }

  // ---- What a command list does ----

  /** The events of a list whose TX FIFO holds `tx`; END and STOP finish it. */
  function Exec(cmds: seq<Command>, tx: Bytes): seq<Bus>
    decreases cmds
  {
    if cmds == [] then []
    else match cmds[0]
      case RStart => [Start] + Exec(cmds[1..], tx)
      case Write(n) =>
        var k := if n <= |tx| then n else |tx|;
        SentAll(tx[..k]) + Exec(cmds[1..], tx[k..])
      case Read(n, nack) => ReceivedAll(n, !nack) + Exec(cmds[1..], tx)
      case Stop => [StopCondition]
      case End => []
  }

  /** The FIFO bytes that the WRITE commands of a list use. */
  function TxUse(cmds: seq<Command>): nat {
    if cmds == [] then 0 else (if cmds[0].Write? then cmds[0].bytes else 0) + TxUse(cmds[1..])
  }

  function RxUse(cmds: seq<Command>): nat {
    if cmds == [] then 0 else (if cmds[0].Read? then cmds[0].bytes else 0) + RxUse(cmds[1..])
  }

  predicate Open(cmds: seq<Command>) {
    forall i :: 0 <= i < |cmds| ==> !cmds[i].Stop? && !cmds[i].End?
  }

  lemma {:induction false} ExecAppend(cmds: seq<Command>, tx: Bytes, c: Command, more: Bytes)
    requires Open(cmds) && TxUse(cmds) == |tx|
    ensures Exec(cmds + [c], tx + more) == Exec(cmds, tx) + Exec([c], more)
    decreases cmds
  {
    var all := cmds + [c];
    if cmds == [] {
      assert all == [c] && tx + more == more;
    } else {
      var rest := cmds[1..];
      assert all[0] == cmds[0] && all[1..] == rest + [c];
      match cmds[0]
      case RStart =>
        ExecAppend(rest, tx, c, more);
        Assoc([Start], Exec(rest, tx), Exec([c], more));
      case Write(n) =>
        assert (tx + more)[..n] == tx[..n] && (tx + more)[n..] == tx[n..] + more;
        ExecAppend(rest, tx[n..], c, more);
        Assoc(SentAll(tx[..n]), Exec(rest, tx[n..]), Exec([c], more));
      case Read(n, nack) =>
        ExecAppend(rest, tx, c, more);
        Assoc(ReceivedAll(n, !nack), Exec(rest, tx), Exec([c], more));
    }
  }

  lemma {:induction false} UseAppend(cmds: seq<Command>, c: Command)
    ensures TxUse(cmds + [c]) == TxUse(cmds) + TxUse([c])
    ensures RxUse(cmds + [c]) == RxUse(cmds) + RxUse([c])
  {
    var all := cmds + [c];
    if cmds == [] {
      assert all == [c];
    } else {
      assert all[0] == cmds[0] && all[1..] == cmds[1..] + [c];
      UseAppend(cmds[1..], c);
    }
  }

  /** The number of bytes that the devices send during some events. */
  function Receives(events: seq<Bus>): nat {
    if events == [] then 0 else (if events[0].Received? then 1 else 0) + Receives(events[1..])
  }

  lemma {:induction false} ReceivesAppend(a: seq<Bus>, b: seq<Bus>)
    ensures Receives(a + b) == Receives(a) + Receives(b)
  {
    var ab := a + b;
    if a == [] {
      assert ab == b;
    } else {
      assert ab[0] == a[0] && ab[1..] == a[1..] + b;
      ReceivesAppend(a[1..], b);
    }
  }

  lemma {:induction false} ReceivesUniform(events: seq<Bus>)
    ensures (forall e :: e in events ==> e.Received?) ==> Receives(events) == |events|
    ensures (forall e :: e in events ==> !e.Received?) ==> Receives(events) == 0
  {
    if events != [] {
      ReceivesUniform(events[1..]);
      assert forall e :: e in events[1..] ==> e in events;
    }
  }

  /** A list receives the bytes of its READ commands. */
  lemma {:induction false} ExecReceives(cmds: seq<Command>, tx: Bytes)
    requires Open(cmds[..if |cmds| > 0 then |cmds| - 1 else 0])
    ensures Receives(Exec(cmds, tx)) == RxUse(cmds)
    decreases cmds
  {
    if cmds != [] {
      var rest := cmds[1..];
      if |cmds| > 1 {
        assert rest[..|rest| - 1] == cmds[..|cmds| - 1][1..];
        assert cmds[..|cmds| - 1][0] == cmds[0];
      }
      assert [Start][1..] == [] && [StopCondition][1..] == [];
      match cmds[0]
      case RStart =>
        ExecReceives(rest, tx);
        ReceivesAppend([Start], Exec(rest, tx));
      case Write(n) =>
        var k := if n <= |tx| then n else |tx|;
        ExecReceives(rest, tx[k..]);
        ReceivesAppend(SentAll(tx[..k]), Exec(rest, tx[k..]));
        ReceivesUniform(SentAll(tx[..k]));
      case Read(n, nack) =>
        ExecReceives(rest, tx);
        ReceivesAppend(ReceivedAll(n, !nack), Exec(rest, tx));
        ReceivesUniform(ReceivedAll(n, !nack));
      case _ => assert rest == [];
    }
  }
}
