/**
 Improv Wi-Fi packets: a command byte, the size of the data, the data, and a checksum.  The server
 collects the writes of a client until they make a packet.
 */
module Improv {
  import opened Words

  const INCOMPLETE := 1
  const ERR_NONE := 0
  const ERR_INVALID := 1
  const ERR_UNKNOWN := 2

  const RPC_MAX := 128

  datatype Command = Wifi(ssid: Bytes, pass: Bytes) | Identify | Info

  /** The result of improv_parse(), which has one number for an incomplete and for an invalid
      packet. */
  datatype Parsed = Complete(cmd: Command) | Other(code: int)

  predicate Printable(p: Bytes) {
    forall i :: 0 <= i < |p| ==> 0x20 <= p[i] <= 0x7e
  }

  /** A WPA passphrase; none for an open network. */
  predicate PassOk(p: Bytes) {
    (p == [] || 8 <= |p| <= 63) && Printable(p)
  }

  predicate Valid(c: Command) {
    c.Wifi? ==> 1 <= |c.ssid| <= 32 && 0 !in c.ssid && PassOk(c.pass)
  }

  // ---- Packets ----

  function Sum(b: Bytes): nat {
    if b == [] then 0 else b[0] + Sum(b[1..])
  }

  function Code(c: Command): byte {
    match c
    case Wifi(_, _) => 1
    case Identify => 2
    case Info => 3
  }

  function Payload(c: Command): Bytes
    requires Valid(c)
  {
    match c
    case Wifi(ssid, pass) => [|ssid|] + ssid + [|pass|] + pass
    case _ => []
  }

  function Body(c: Command): (b: Bytes)
    requires Valid(c)
    ensures |b| == 2 + |Payload(c)| <= 99
  {
    [Code(c), |Payload(c)|] + Payload(c)
  }

  /** What a client sends for a command. */
  function Packet(c: Command): (b: Bytes)
    requires Valid(c)
    ensures 3 <= |b| <= 100
  {
    Body(c) + [Sum(Body(c)) % 0x100]
  }

  function ParseWifi(d: Bytes): Parsed {
    if |d| < 2 then Other(ERR_INVALID)
    else
      var sl: nat := d[0];
      if sl == 0 || sl > 32 || 1 + sl + 1 > |d| then Other(ERR_INVALID)
      else
        var pl: nat := d[1 + sl];
        if 2 + sl + pl != |d| || !PassOk(d[2 + sl..2 + sl + pl]) || 0 in d[1..1 + sl] then Other(ERR_INVALID)
        else Complete(Wifi(d[1..1 + sl], d[2 + sl..2 + sl + pl]))
  }

  function ParseData(code: byte, d: Bytes): Parsed {
    if code == 1 then ParseWifi(d)
    else if code == 2 || code == 3 then
      if d != [] then Other(ERR_INVALID) else Complete(if code == 2 then Identify else Info)
    else Other(ERR_UNKNOWN)
  }

  /** improv_parse() */
  function Parse(b: Bytes): Parsed {
    if |b| < 3 || |b| < b[1] as int + 3 then Other(INCOMPLETE)
    else if |b| > b[1] as int + 3 || Sum(b[..b[1] as int + 2]) % 0x100 != b[b[1] as int + 2] then Other(ERR_INVALID)
    else ParseData(b[0], b[2..b[1] as int + 2])
  }

  lemma ParsePayload(c: Command)
    requires Valid(c)
    ensures ParseData(Code(c), Payload(c)) == Complete(c)
  {
    if c.Wifi? {
      var d, sl, pl := Payload(c), |c.ssid|, |c.pass|;
      assert d[1..1 + sl] == c.ssid && d[1 + sl] == pl && d[2 + sl..2 + sl + pl] == c.pass;
      hide PassOk;
    }
  }

  /** Each valid packet is its command. */
  lemma ParsePacket(c: Command)
    requires Valid(c)
    ensures Parse(Packet(c)) == Complete(c)
  {
    ParsePayload(c);
    var b := Packet(c);
    hide Sum, ParseData, Payload, Valid, Code;
    var n := |Payload(c)|;
    assert b[..n + 2] == Body(c) && b[2..n + 2] == Payload(c);
  }

  /** A part of a valid packet is not complete. */
  lemma ParsePart(c: Command, n: nat)
    requires Valid(c) && n < |Packet(c)|
    ensures Parse(Packet(c)[..n]) == Other(INCOMPLETE)
  {
    hide Sum, ParseData, Payload, Valid, Code;
    assert Packet(c)[1] == |Payload(c)|;
  }

  lemma WifiSound(d: Bytes)
    requires ParseWifi(d).Complete?
    ensures Valid(ParseWifi(d).cmd) && ParseWifi(d).cmd.Wifi? && d == Payload(ParseWifi(d).cmd)
  {
    hide PassOk;
    var sl := d[0];
    var pl := d[1 + sl];
    assert d == [d[0]] + d[1..1 + sl] + [d[1 + sl]] + d[2 + sl..2 + sl + pl];
  }

  lemma DataSound(code: byte, d: Bytes)
    requires ParseData(code, d).Complete?
    ensures var c := ParseData(code, d).cmd; Valid(c) && d == Payload(c) && code == Code(c)
  {
    if code == 1 {
      WifiSound(d);
      hide ParseWifi;
    }
  }

  /** And nothing else is accepted: a complete packet is the packet of a valid command. */
  lemma ParseSound(b: Bytes)
    requires Parse(b).Complete?
    ensures Valid(Parse(b).cmd) && b == Packet(Parse(b).cmd)
  {
    var n: nat := b[1];
    DataSound(b[0], b[2..n + 2]);
    hide Sum, ParseData, Payload, Valid, Code;
    var c := Parse(b).cmd;
    assert b[..n + 2] == [b[0], b[1]] + b[2..n + 2];
    assert b == b[..n + 2] + [b[n + 2]];
  }

  lemma {:induction false} SumAppend(b: Bytes, last: byte)
    ensures Sum(b + [last]) == Sum(b) + last
  {
    var c := b + [last];
    if b == [] {
      assert c[1..] == [];
    } else {
      assert c[1..] == b[1..] + [last];
      SumAppend(b[1..], last);
    }
  }

  /** checksum() */
  method Checksum(p: Bytes) returns (sum: byte)
    ensures sum == Sum(p) % 0x100
  {
    var total: nat := 0;
    assert p[..0] == [];
    for i := 0 to |p|
      invariant total == Sum(p[..i])
    {
      SumAppend(p[..i], p[i]);
      assert p[..i + 1] == p[..i] + [p[i]];
      total := total + p[i] as int;
    }
    assert p[..|p|] == p;
    sum := total % 0x100;
  }

  /** valid_pass() */
  method ValidPass(p: Bytes) returns (ok: bool)
    ensures ok == PassOk(p)
  {
    if p != [] && (|p| < 8 || |p| > 63) {
      return false;
    }
    for i := 0 to |p|
      invariant Printable(p[..i])
    {
      if p[i] < 0x20 || p[i] > 0x7e {
        assert !Printable(p);
        return false;
      }
    }
    assert p[..|p|] == p;
    ok := true;
  }

  /** parse_wifi() */
  method ReadWifi(d: Bytes) returns (r: Parsed)
    ensures r == ParseWifi(d)
  {
    hide PassOk;
    if |d| < 2 {
      return Other(ERR_INVALID);
    }
    var sl := d[0];
    if sl == 0 || sl > 32 || 1 + sl + 1 > |d| {
      return Other(ERR_INVALID);
    }
    var pl := d[1 + sl];
    if 2 + sl + pl != |d| {
      return Other(ERR_INVALID);
    }
    var pass := ValidPass(d[2 + sl..2 + sl + pl]);
    if !pass || 0 in d[1..1 + sl] {
      return Other(ERR_INVALID);
    }
    r := Complete(Wifi(d[1..1 + sl], d[2 + sl..2 + sl + pl]));
  }

  /** improv_parse() */
  method ReadPacket(b: Bytes) returns (r: Parsed)
    ensures r == Parse(b)
  {
    hide ParseWifi, Sum;
    if |b| < 3 {
      return Other(INCOMPLETE);
    }
    var n: nat := b[1];
    if |b| < n + 3 {
      return Other(INCOMPLETE);
    }
    var sum := Checksum(b[..n + 2]);
    if |b| > n + 3 || sum != b[n + 2] {
      return Other(ERR_INVALID);
    }
    if b[0] == 1 {
      r := ReadWifi(b[2..n + 2]);
    } else if b[0] == 2 || b[0] == 3 {
      r := if n != 0 then Other(ERR_INVALID) else Complete(if b[0] == 2 then Identify else Info);
    } else {
      r := Other(ERR_UNKNOWN);
    }
  }

  // ---- Writes to the RPC command ----

  /** The packet so far, the error that the client sees, and the commands so far. */
  datatype Rpc = Rpc(buf: Bytes, error: byte, commands: seq<Command>)

  /** What one write does. */
  function Write(s: Rpc, data: Bytes): Rpc {
    if |s.buf| + |data| > RPC_MAX then Rpc([], ERR_INVALID, s.commands)
    else
      match Parse(s.buf + data)
      case Complete(c) => Rpc([], ERR_NONE, s.commands + [c])
      case Other(code) => if code == ERR_UNKNOWN then Rpc([], ERR_UNKNOWN, s.commands) else s.(buf := s.buf + data)
  }

  function WriteAll(s: Rpc, parts: seq<Bytes>): Rpc
    decreases |parts|
  {
    if parts == [] then s else WriteAll(Write(s, parts[0]), parts[1..])
  }

  lemma NothingIsIncomplete(s: Rpc)
    requires s.buf == []
    ensures Write(s, []) == s
  {
    assert s.buf + [] == [];
  }

  lemma {:induction false} EmptyWrites(s: Rpc, parts: seq<Bytes>)
    requires s.buf == [] && Concat(parts) == []
    ensures WriteAll(s, parts) == s
    decreases |parts|
  {
    hide Write;
    if parts != [] {
      assert parts[0] == [];
      NothingIsIncomplete(s);
      EmptyWrites(s, parts[1..]);
    }
  }

  lemma WritePart(s: Rpc, part: Bytes, c: Command)
    requires Valid(c) && s.buf + part <= Packet(c)
    ensures Write(s, part) ==
            if s.buf + part == Packet(c) then Rpc([], ERR_NONE, s.commands + [c]) else s.(buf := s.buf + part)
  {
    ParsePacket(c);
    var all := s.buf + part;
    if all != Packet(c) {
      assert all == Packet(c)[..|all|];
      ParsePart(c, |all|);
    }
    hide Parse, Packet, Valid;
    assert |Packet(c)| <= 100;
  }

  /** However a valid packet is cut into writes, it is exactly one command, with the same SSID
      and passphrase. */
  lemma {:induction false} WritesDeliver(s: Rpc, parts: seq<Bytes>, c: Command)
    requires Valid(c) && s.buf + Concat(parts) == Packet(c) && |s.buf| < |Packet(c)|
    ensures WriteAll(s, parts) == Rpc([], ERR_NONE, s.commands + [c])
    decreases |parts|
  {
    hide Write, Packet, Valid;
    if parts != [] {
      Assoc(s.buf, parts[0], Concat(parts[1..]));
      WritePart(s, parts[0], c);
      if s.buf + parts[0] == Packet(c) {
        assert Concat(parts[1..]) == [];
        EmptyWrites(Write(s, parts[0]), parts[1..]);
      } else {
        WritesDeliver(Write(s, parts[0]), parts[1..], c);
      }
    }
  }

  // ---- Packets that are not valid ----

  /** The declared length is there. */
  predicate Declared(b: Bytes) {
    |b| >= 3 && |b| >= b[1] as int + 3
  }

  /** The length and the checksum are right. */
  predicate Sealed(b: Bytes) {
    Declared(b) && |b| == b[1] as int + 3 && Sum(b[..|b| - 1]) % 0x100 == b[|b| - 1]
  }

  ghost predicate IsPacket(b: Bytes) {
    exists c :: Valid(c) && b == Packet(c)
  }

  /** What makes the buffer empty again: a valid packet, or a right one with an unknown code. */
  ghost predicate Answered(b: Bytes) {
    Sealed(b) && (IsPacket(b) || (b[0] != 1 && b[0] != 2 && b[0] != 3))
  }

  /** A buffer that waits for bytes that cannot help. */
  ghost predicate Stuck(b: Bytes) {
    Declared(b) && !Answered(b)
  }

  lemma ParseByPacket(b: Bytes)
    ensures Parse(b).Complete? <==> IsPacket(b)
    ensures IsPacket(b) ==> Sealed(b)
    ensures Parse(b) == Other(ERR_UNKNOWN) <==> Sealed(b) && b[0] != 1 && b[0] != 2 && b[0] != 3
  {
    if Parse(b).Complete? {
      ParseSound(b);
    }
    if IsPacket(b) {
      var c :| Valid(c) && b == Packet(c);
      ParsePacket(c);
    }
    ParseSealed(b);
    hide Parse, Packet, Valid;
  }

  /** The error value that a client sees after a write: 1 after one that does not fit, 0 after a
      command, 2 after a right packet with an unknown code; a write that is only kept leaves it. */
  lemma ErrorAfterWrite(s: Rpc, data: Bytes)
    ensures var e, all := Write(s, data), s.buf + data;
            && (|all| > RPC_MAX ==> e == Rpc([], 1, s.commands))
            && (|all| <= RPC_MAX && IsPacket(all) ==> e.buf == [] && e.error == 0 && |e.commands| == |s.commands| + 1)
            && (|all| <= RPC_MAX && Sealed(all) && all[0] !in {1, 2, 3} ==> e == Rpc([], 2, s.commands))
            && (|all| <= RPC_MAX && !Answered(all) ==> e == Rpc(all, s.error, s.commands))
  {
    ParseByPacket(s.buf + data);
    ParseCodes(s.buf + data);
    hide Parse, IsPacket, Sealed;
  }

  lemma ParseSealed(b: Bytes)
    ensures Parse(b).Complete? ==> Sealed(b)
    ensures Parse(b) == Other(ERR_UNKNOWN) <==> Sealed(b) && b[0] != 1 && b[0] != 2 && b[0] != 3
  {
    hide Sum, PassOk;
    if Declared(b) && |b| == b[1] as int + 3 {
      assert b[..|b| - 1] == b[..b[1] as int + 2];
    }
  }

  /** A write that completes the declared length empties the buffer if and only if the length and
      the checksum are right, and the bytes are the packet of a valid command or the code is
      unknown.  Only the first of these two is a command. */
  lemma CompletedWrite(s: Rpc, data: Bytes)
    requires |s.buf| + |data| <= RPC_MAX && Declared(s.buf + data)
    ensures Write(s, data).buf == [] <==> Answered(s.buf + data)
    ensures Write(s, data).commands != s.commands <==> IsPacket(s.buf + data)
    ensures Stuck(s.buf + data) ==> Write(s, data) == s.(buf := s.buf + data)
  {
    ParseByPacket(s.buf + data);
    ParseCodes(s.buf + data);
    hide Parse, IsPacket, Sealed;
  }

  /** More bytes only make a stuck packet longer than it declares. */
  lemma StuckGrows(b: Bytes, data: Bytes)
    requires Stuck(b)
    ensures Stuck(b + data)
  {
    if data == [] {
      assert b + data == b;
    } else {
      assert (b + data)[1] == b[1];
    }
    hide IsPacket, Sum;
  }

  /** An invalid packet has the number of an incomplete one, so that it stays in the buffer: no
      further writes complete it, not even those of a valid packet, as long as they fit. */
  lemma {:induction false} InvalidStays(s: Rpc, parts: seq<Bytes>)
    requires Stuck(s.buf) && |s.buf| + |Concat(parts)| <= RPC_MAX
    ensures WriteAll(s, parts) == s.(buf := s.buf + Concat(parts))
    decreases |parts|
  {
    hide Stuck, Write;
    if parts == [] {
      assert s.buf + [] == s.buf;
    } else {
      StuckGrows(s.buf, parts[0]);
      StuckWrite(s, parts[0]);
      InvalidStays(s.(buf := s.buf + parts[0]), parts[1..]);
      Assoc(s.buf, parts[0], Concat(parts[1..]));
    }
  }

  lemma StuckWrite(s: Rpc, data: Bytes)
    requires Stuck(s.buf + data) && |s.buf| + |data| <= RPC_MAX
    ensures Write(s, data) == s.(buf := s.buf + data)
  {
    hide Write, Answered;
    CompletedWrite(s, data);
  }

  /** The write that no longer fits is lost, but it frees the buffer; no write before it is a
      command. */
  lemma OverflowFrees(s: Rpc, parts: seq<Bytes>, last: Bytes)
    requires Stuck(s.buf) && |s.buf| + |Concat(parts)| <= RPC_MAX < |s.buf| + |Concat(parts)| + |last|
    ensures WriteAll(s, parts + [last]) == Rpc([], ERR_INVALID, s.commands)
  {
    hide Stuck, Parse;
    InvalidStays(s, parts);
    WriteLast(s, parts, last);
  }

  lemma {:induction false} WriteLast(s: Rpc, parts: seq<Bytes>, last: Bytes)
    ensures WriteAll(s, parts + [last]) == Write(WriteAll(s, parts), last)
    decreases |parts|
  {
    hide Write;
    var all := parts + [last];
    if parts == [] {
      assert all == [last] && all[1..] == [];
    } else {
      assert all[0] == parts[0] && all[1..] == parts[1..] + [last];
      WriteLast(Write(s, parts[0]), parts[1..], last);
    }
  }

  /** An input that gets there: the packet of the info command with a wrong checksum, and after it
      the right packet of that command, which is not heard. */
  lemma InvalidIsReached(error: byte, commands: seq<Command>)
    ensures var s := Write(Rpc([], error, commands), [3, 0, 0]);
            && s == Rpc([3, 0, 0], error, commands) && Stuck(s.buf)
            && Packet(Info) == [3, 0, 3] && Write(s, [3, 0, 3]) == s.(buf := [3, 0, 0, 3, 0, 3])
  {
    var b: Bytes := [3, 0, 0];
    assert [] + b == b;
    assert b[..2] == [3, 0] && Sum(b[..2]) == 3 by { SumOfInfo(); }
    SumOfInfo();
    var s := Write(Rpc([], error, commands), b);
    assert s == Rpc(b, error, commands);
    assert b + [3, 0, 3] == [3, 0, 0, 3, 0, 3];
  }

  lemma SumOfInfo()
    ensures Sum([3, 0]) == 3 && Body(Info) == [3, 0]
  {
    assert [3, 0][1..] == [0] && [0][1..] == [];
  }

  class Receiver {
    const buf: array<byte>
    var len: nat
    var error: byte
    ghost var commands: seq<Command>

    ghost predicate Ok()
      reads this
    {
      buf.Length == RPC_MAX && len <= RPC_MAX
    }

    ghost function State(): Rpc
      requires Ok()
      reads this, buf
    {
      Rpc(buf[..len], error, commands)
    }

    constructor ()
      ensures Ok() && fresh(buf) && State() == Rpc([], ERR_NONE, [])
    {
      len, error, commands := 0, ERR_NONE, [];
      buf := new byte[RPC_MAX];
    }

    /** rpc_write() */
    method RpcWrite(data: Bytes) returns (command: Option<Command>)
      requires Ok()
      modifies this, buf
      ensures Ok() && State() == Write(old(State()), data)
      ensures State().commands == old(State()).commands + if command.Some? then [command.value] else []
    {
      hide Parse;
      command := None;
      if len + |data| > RPC_MAX {
        len, error := 0, ERR_INVALID;
        return;
      }
      var at := len;
      ghost var before := buf[..at];
      forall i | 0 <= i < |data| {
        buf[at + i] := data[i];
      }
      len := at + |data|;
      assert buf[..len] == before + data;
      var r := ReadPacket(buf[..len]);
      if r.Other? && r.code == INCOMPLETE {
        return;
      }
      ParseCodes(before + data);
      forall i | 0 <= i < len {
        buf[i] := 0;
      }
      len := 0;
      if r.Other? {
        error := r.code;
        return;
      }
      error := ERR_NONE;
      commands := commands + [r.cmd];
      command := Some(r.cmd);
    }
  }

  lemma ParseCodes(b: Bytes)
    ensures Parse(b).Other? ==> Parse(b).code == INCOMPLETE || Parse(b).code == ERR_UNKNOWN
  {
    hide Sum, PassOk;
  }
}
