/** How one command more changes what a list does and what is left to do. */
module I2cLists {
  import opened Words
  import opened I2cSpec

  /** The commands of the running list, the bytes in its TX FIFO, and the RX bytes it needs. */
  datatype List = List(cmds: seq<Command>, tx: Bytes, rx: nat)

  /** A READ of the running list: where its bytes go. */
  datatype RxEntry = RxEntry(msg: nat, pos: nat, len: nat)

  const EMPTY := List([], [], 0)

  /** The limits of a list that still needs its last command. */
  ghost predicate ListOk(l: List) {
    && Open(l.cmds) && |l.cmds| <= NCMDS - 1
    && TxUse(l.cmds) == |l.tx| <= FIFO_SIZE
    && RxUse(l.cmds) == l.rx <= FIFO_SIZE
  }

  /** The whole program: what the list does, and what is left after it. */
  function Whole(msgs: seq<Msg>, l: List, c: Cursor): seq<Bus>
  {
    Exec(l.cmds, l.tx) + Program(msgs, c)
  }

  function AddCommand(l: List, c: Command, bytes: Bytes): List {
    List(l.cmds + [c], l.tx + bytes, l.rx + if c.Read? then c.bytes else 0)
  }

  lemma AddCommandOk(l: List, c: Command, bytes: Bytes)
    requires ListOk(l) && |l.cmds| + 1 <= NCMDS - 1 && !c.Stop? && !c.End?
    requires |bytes| == (if c.Write? then c.bytes else 0) && |l.tx| + |bytes| <= FIFO_SIZE
    requires c.Read? ==> l.rx + c.bytes <= FIFO_SIZE
    ensures var l' := AddCommand(l, c, bytes);
            ListOk(l') && Exec(l'.cmds, l'.tx) == Exec(l.cmds, l.tx) + Exec([c], bytes)
  {
    hide Exec, TxUse, RxUse;
    ExecAppend(l.cmds, l.tx, c, bytes);
    UseAppend(l.cmds, c);
    UseOne(c);
  }

  lemma UseOne(c: Command)
    ensures TxUse([c]) == (if c.Write? then c.bytes else 0) && RxUse([c]) == (if c.Read? then c.bytes else 0)
  {
    assert [c][1..] == [];
  }

  lemma ExecOne(c: Command, bytes: Bytes)
    requires |bytes| == if c.Write? then c.bytes else 0
    ensures Exec([c], bytes) ==
            match c
            case RStart => [Start]
            case Write(_) => SentAll(bytes)
            case Read(n, nack) => ReceivedAll(n, !nack)
            case Stop => [StopCondition]
            case End => []
  {
    assert [c][1..] == [];
    if c.Write? {
      assert bytes[..c.bytes] == bytes;
      assert SentAll(bytes) + Exec([c][1..], bytes[c.bytes..]) == SentAll(bytes);
    }
  }

  lemma ProgramStarts(msgs: seq<Msg>, c: Cursor)
    requires c.msg < |msgs| && !c.addressed
    ensures Program(msgs, c) == Header(msgs[c.msg]) + Program(msgs, c.(addressed := true))
  {
    hide Header, Data;
    var rest := Data(msgs[c.msg], c.pos) + Program(msgs, Cursor(c.msg + 1, 0, false));
    assert [] + rest == rest;
  }

  lemma AddressCommands(l: List, a: byte)
    requires ListOk(l) && |l.cmds| + 3 <= NCMDS - 1 && |l.tx| < FIFO_SIZE
    ensures var l' := AddCommand(AddCommand(l, RStart, []), Write(1), [a]);
            ListOk(l') && Exec(l'.cmds, l'.tx) == Exec(l.cmds, l.tx) + [Start, Sent(a)]
  {
    hide Exec, TxUse, RxUse, Open;
    var l1 := AddCommand(l, RStart, []);
    AddCommandOk(l, RStart, []);
    ExecOne(RStart, []);
    AddCommandOk(l1, Write(1), [a]);
    ExecOne(Write(1), [a]);
    assert [Start] + SentAll([a]) == [Start, Sent(a)];
    Assoc(Exec(l.cmds, l.tx), [Start], SentAll([a]));
  }

  /** A RESTART and the address, before the data of message `c.msg`. */
  lemma AddressStep(msgs: seq<Msg>, l: List, c: Cursor)
    requires c.msg < |msgs| && !c.addressed
    requires ListOk(l) && |l.cmds| + 3 <= NCMDS - 1 && |l.tx| < FIFO_SIZE
    ensures var m := msgs[c.msg];
            var l' := AddCommand(AddCommand(l, RStart, []), Write(1), [AddressByte(m)]);
            ListOk(l') && Whole(msgs, l', c.(addressed := true)) == Whole(msgs, l, c)
  {
    hide Exec, TxUse, RxUse, Open, Program, AddCommand;
    ProgramStarts(msgs, c);
    AddressCommands(l, AddressByte(msgs[c.msg]));
    Assoc(Exec(l.cmds, l.tx), Header(msgs[c.msg]), Program(msgs, c.(addressed := true)));
  }

  lemma WriteData(m: Msg, pos: nat, n: nat)
    requires m.WriteMsg? && pos + n <= m.Len()
    ensures Data(m, pos) == SentAll(m.out[pos..pos + n]) + Data(m, pos + n)
  {
  }

  /** The next `n` bytes of a write. */
  lemma WriteStep(msgs: seq<Msg>, l: List, c: Cursor, n: nat)
    requires c.msg < |msgs| && c.addressed && msgs[c.msg].WriteMsg?
    requires c.pos + n <= msgs[c.msg].Len()
    requires ListOk(l) && |l.cmds| + 1 <= NCMDS - 1 && |l.tx| + n <= FIFO_SIZE
    ensures var l' := AddCommand(l, Write(n), msgs[c.msg].out[c.pos..c.pos + n]);
            ListOk(l') && Whole(msgs, l', c.(pos := c.pos + n)) == Whole(msgs, l, c)
  {
    hide Exec, Data, Program, SentAll, ListOk;
    var m := msgs[c.msg];
    var bytes := m.out[c.pos..c.pos + n];
    AddCommandOk(l, Write(n), bytes);
    ExecOne(Write(n), bytes);
    WriteData(m, c.pos, n);
    DataStep(msgs, l, c, n, SentAll(bytes));
  }

  lemma DataStep(msgs: seq<Msg>, l: List, c: Cursor, n: nat, events: seq<Bus>)
    requires c.msg < |msgs| && c.addressed && c.pos + n <= msgs[c.msg].Len()
    requires Data(msgs[c.msg], c.pos) == events + Data(msgs[c.msg], c.pos + n)
    ensures (Exec(l.cmds, l.tx) + events) + Program(msgs, c.(pos := c.pos + n)) == Whole(msgs, l, c)
  {
    hide Exec, Data, Program;
    ProgramGoesOn(msgs, c);
    ProgramGoesOn(msgs, c.(pos := c.pos + n));
    Regroup(Exec(l.cmds, l.tx), events, Data(msgs[c.msg], c.pos + n), Program(msgs, Cursor(c.msg + 1, 0, false)));
  }

  lemma Regroup<T>(e: seq<T>, events: seq<T>, d: seq<T>, p: seq<T>)
    ensures (e + events) + (d + p) == e + ((events + d) + p)
  {
    Assoc(events, d, p);
    Assoc(e, events, d + p);
  }

  lemma ProgramGoesOn(msgs: seq<Msg>, c: Cursor)
    requires c.msg < |msgs| && c.addressed
    ensures Program(msgs, c) == Data(msgs[c.msg], c.pos) + Program(msgs, Cursor(c.msg + 1, 0, false))
  {
    hide Data;
    var rest := Data(msgs[c.msg], c.pos) + Program(msgs, Cursor(c.msg + 1, 0, false));
    assert [] + rest == rest;
  }

  /** The commands for `n` bytes of a read: if they end the message, its last byte has a READ that
      ends in a NACK. */
  function AddRead(l: List, n: nat, last: bool): List
    requires last ==> n > 0
  {
    var bulk := if last then n - 1 else n;
    var l1 := if bulk > 0 then AddCommand(l, Read(bulk, false), []) else l;
    if last then AddCommand(l1, Read(1, true), []) else l1
  }

  lemma ReadStep(msgs: seq<Msg>, l: List, c: Cursor, n: nat, last: bool)
    requires c.msg < |msgs| && c.addressed && msgs[c.msg].ReadMsg?
    requires 0 < n && c.pos + n <= msgs[c.msg].Len() && last == (c.pos + n == msgs[c.msg].Len())
    requires ListOk(l) && l.rx + n <= FIFO_SIZE
    requires |l.cmds| + (if n > 1 || !last then 1 else 0) + (if last then 1 else 0) <= NCMDS - 1
    ensures var l' := AddRead(l, n, last);
            && ListOk(l') && Whole(msgs, l', c.(pos := c.pos + n)) == Whole(msgs, l, c)
            && l'.rx == l.rx + n && l'.tx == l.tx && |l'.cmds| > |l.cmds|
  {
    var m := msgs[c.msg];
    var bulk := if last then n - 1 else n;
    var l1 := if bulk > 0 then AddCommand(l, Read(bulk, false), []) else l;
    assert Exec(l1.cmds, l1.tx) == Exec(l.cmds, l.tx) + ReceivedAll(bulk, true) && ListOk(l1) by {
      if bulk > 0 {
        AddCommandOk(l, Read(bulk, false), []);
        ExecOne(Read(bulk, false), []);
      }
    }
    var tail := if last then ReceivedAll(1, false) else [];
    var l' := AddRead(l, n, last);
    assert Exec(l'.cmds, l'.tx) == Exec(l1.cmds, l1.tx) + tail && ListOk(l') by {
      if last {
        AddCommandOk(l1, Read(1, true), []);
        ExecOne(Read(1, true), []);
      }
    }
    hide Exec, ListOk;
    Assoc(Exec(l.cmds, l.tx), ReceivedAll(bulk, true), tail);
    assert Data(m, c.pos) == (ReceivedAll(bulk, true) + tail) + Data(m, c.pos + n);
    DataStep(msgs, l, c, n, ReceivedAll(bulk, true) + tail);
  }

  /** esp32s31_i2c_next_msg() at the end of a message leaves the program. */
  lemma NextMessage(msgs: seq<Msg>, c: Cursor)
    requires c.msg < |msgs| && c.addressed && c.pos == msgs[c.msg].Len()
    ensures Program(msgs, c) == Program(msgs, Cursor(c.msg + 1, 0, false))
    ensures Work(msgs, c) == Work(msgs, Cursor(c.msg + 1, 0, false))
  {
    var p := Program(msgs, Cursor(c.msg + 1, 0, false));
    assert Data(msgs[c.msg], c.pos) == [];
    assert [] + ([] + p) == p;
  }
}
