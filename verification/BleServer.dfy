/**
 The way of an Improv command through the server: ACL packets, L2CAP frames, ATT requests, and
 writes to the RPC command, plain or prepared.
 */
module BleServer {
  import opened Words
  import AclLink
  import GattTable
  import GattClient
  import GattServer
  import Improv

  const ATT_CID: u16 := 4

  datatype Server = Server(gatt: GattServer.State, rpc: Improv.Rpc)

  /** The server, and the L2CAP frame so far. */
  datatype Conn = Conn(l2: Bytes, server: Server)

  /** The error value that the server shows is the one of the RPC command. */
  predicate Valid(s: Server) {
    GattServer.Valid(s.gatt) && s.gatt.values.error == s.rpc.error
  }

  /** The server with another state of the RPC command: set_state() shows its error. */
  function Shown(s: Server, rpc: Improv.Rpc): Server {
    Server(s.gatt.(values := s.gatt.values.(error := rpc.error)), rpc)
  }

  /** A request of the client; `max` is the room for the response. */
  function Att(s: Server, req: Bytes, max: nat): (r: Server)
    requires Valid(s) && max >= GattServer.MTU_MIN
    ensures Valid(r)
  {
    var o := GattServer.Handle(GattTable.DB, s.gatt, req, max);
    GattServer.HandleKeeps(GattTable.DB, s.gatt, req, max);
    Shown(Server(o.state, s.rpc), if o.rpc.Some? then Improv.Write(s.rpc, o.rpc.value) else s.rpc)
  }

  /** A frame of l2cap_frame(); the other channels change nothing here. */
  function TakeFrame(s: Server, f: AclLink.Frame, max: nat): (r: Server)
    requires Valid(s) && max >= GattServer.MTU_MIN
    ensures Valid(r)
  {
    if f.cid == ATT_CID then Att(s, f.data, max) else s
  }

  function Receive(c: Conn, p: Bytes, max: nat): (r: Conn)
    requires Valid(c.server) && max >= GattServer.MTU_MIN
    ensures Valid(r.server)
  {
    var a := AclLink.HandleAcl(c.l2, p);
    Conn(a.l2, if a.frame.Some? then TakeFrame(c.server, a.frame.value, max) else c.server)
  }

  function ReceiveAll(c: Conn, ps: seq<Bytes>, max: nat): (r: Conn)
    requires Valid(c.server) && max >= GattServer.MTU_MIN
    ensures Valid(r.server)
    decreases |ps|
  {
    if ps == [] then c else ReceiveAll(Receive(c, ps[0], max), ps[1..], max)
  }

  function TakeFrames(s: Server, fs: seq<AclLink.Frame>, max: nat): (r: Server)
    requires Valid(s) && max >= GattServer.MTU_MIN
    ensures Valid(r)
    decreases |fs|
  {
    if fs == [] then s else TakeFrames(TakeFrame(s, fs[0], max), fs[1..], max)
  }

  /** The packets do what their frames do. */
  lemma {:induction false} PacketsAreFrames(c: Conn, ps: seq<Bytes>, max: nat)
    requires Valid(c.server) && max >= GattServer.MTU_MIN
    ensures var r := AclLink.HandleAll(c.l2, ps); ReceiveAll(c, ps, max) == Conn(r.0, TakeFrames(c.server, r.1, max))
    decreases |ps|
  {
    hide AclLink.HandleAcl, Valid, TakeFrame;
    if ps != [] {
      AclLink.HandleFirst(c.l2, ps);
      var a := AclLink.HandleAcl(c.l2, ps[0]);
      PacketsAreFrames(Receive(c, ps[0], max), ps[1..], max);
      var fs := AclLink.HandleAll(a.l2, ps[1..]).1;
      hide AclLink.HandleAll;
      if a.frame.Some? {
        assert ([a.frame.value] + fs)[1..] == fs;
      }
    }
  }

  // ---- Requests in fragments ----

  /** A request, and the fragments that carry it. */
  datatype Delivery = Delivery(req: Bytes, fragments: seq<AclLink.Fragment>)

  predicate Delivers(d: Delivery) {
    AclLink.Carries(d.fragments, AclLink.Frame(ATT_CID, d.req))
  }

  predicate AllDeliver(ds: seq<Delivery>) {
    forall i :: 0 <= i < |ds| ==> Delivers(ds[i])
  }

  function DeliverAll(c: Conn, ds: seq<Delivery>, max: nat): (r: Conn)
    requires Valid(c.server) && max >= GattServer.MTU_MIN && AllDeliver(ds)
    ensures Valid(r.server)
    decreases |ds|
  {
    if ds == [] then c
    else
      assert Delivers(ds[0]);
      DeliverAll(ReceiveAll(c, AclLink.Packets(ds[0].fragments), max), ds[1..], max)
  }

  function AttAll(s: Server, reqs: seq<Bytes>, max: nat): (r: Server)
    requires Valid(s) && max >= GattServer.MTU_MIN
    ensures Valid(r)
    decreases |reqs|
  {
    if reqs == [] then s else AttAll(Att(s, reqs[0], max), reqs[1..], max)
  }

  function Requests(ds: seq<Delivery>): (r: seq<Bytes>)
    ensures |r| == |ds|
  {
    if ds == [] then [] else [ds[0].req] + Requests(ds[1..])
  }

  lemma OneDelivery(c: Conn, d: Delivery, max: nat)
    requires Valid(c.server) && max >= GattServer.MTU_MIN && Delivers(d)
    ensures ReceiveAll(c, AclLink.Packets(d.fragments), max) == Conn([], Att(c.server, d.req, max))
  {
    var f := AclLink.Frame(ATT_CID, d.req);
    AclLink.FragmentsDoNotMatter(c.l2, d.fragments, f);
    PacketsAreFrames(c, AclLink.Packets(d.fragments), max);
    assert [f][1..] == [];
    hide AclLink.HandleAll, AclLink.Packets, Att, Valid, ReceiveAll;
  }

  /** The cuts do not matter: the server does what the whole requests say. */
  lemma {:induction false} DeliveriesAreRequests(c: Conn, ds: seq<Delivery>, max: nat)
    requires Valid(c.server) && max >= GattServer.MTU_MIN && AllDeliver(ds)
    ensures DeliverAll(c, ds, max).server == AttAll(c.server, Requests(ds), max)
    decreases |ds|
  {
    hide Valid, Att, ReceiveAll, Delivers;
    if ds != [] {
      assert Delivers(ds[0]);
      OneDelivery(c, ds[0], max);
      DeliveriesAreRequests(Conn([], Att(c.server, ds[0].req, max)), ds[1..], max);
      assert Requests(ds)[1..] == Requests(ds[1..]);
    }
  }

  // ---- Plain writes ----

  datatype Write = Write(command: bool, part: Bytes)

  /** A Write Request or a Write Command to the RPC command. */
  function PlainRequest(w: Write): Bytes {
    [if w.command then 0x52 else 0x12] + GattTable.Handle16(GattTable.RPC_VALUE) + w.part
  }

  function PlainRequests(ws: seq<Write>): (r: seq<Bytes>)
    ensures |r| == |ws|
  {
    if ws == [] then [] else [PlainRequest(ws[0])] + PlainRequests(ws[1..])
  }

  function Parts(ws: seq<Write>): seq<Bytes> {
    if ws == [] then [] else [ws[0].part] + Parts(ws[1..])
  }

  lemma PlainWrite(s: Server, w: Write, max: nat)
    requires Valid(s) && max >= GattServer.MTU_MIN
    ensures Att(s, PlainRequest(w), max) == Shown(s, Improv.Write(s.rpc, w.part))
  {
    var req := PlainRequest(w);
    assert req[3..] == w.part;
    GattTable.Get16OfHandle(req, 1, GattTable.RPC_VALUE);
    hide Improv.Write, GattTable.Get16, GattServer.Valid;
  }

  lemma {:induction false} PlainWrites(s: Server, ws: seq<Write>, max: nat)
    requires Valid(s) && max >= GattServer.MTU_MIN
    ensures AttAll(s, PlainRequests(ws), max) == Shown(s, Improv.WriteAll(s.rpc, Parts(ws)))
    decreases |ws|
  {
    hide Att, Improv.Write, PlainRequest;
    if ws != [] {
      PlainWrite(s, ws[0], max);
      PlainWrites(Shown(s, Improv.Write(s.rpc, ws[0].part)), ws[1..], max);
      assert PlainRequests(ws)[1..] == PlainRequests(ws[1..]) && Parts(ws)[1..] == Parts(ws[1..]);
    }
  }

  /** A valid packet in plain writes: however it is cut into writes, and the writes into ACL
      packets, the server gets exactly one command, with the same SSID and passphrase. */
  lemma PlainWritesDeliver(c: Conn, ds: seq<Delivery>, ws: seq<Write>, cmd: Improv.Command, max: nat)
    requires Valid(c.server) && max >= GattServer.MTU_MIN && AllDeliver(ds) && Requests(ds) == PlainRequests(ws)
    requires Improv.Valid(cmd) && Concat(Parts(ws)) == Improv.Packet(cmd) && c.server.rpc.buf == []
    ensures DeliverAll(c, ds, max).server ==
            Shown(c.server, Improv.Rpc([], Improv.ERR_NONE, c.server.rpc.commands + [cmd]))
  {
    DeliveriesAreRequests(c, ds, max);
    PlainWrites(c.server, ws, max);
    hide AttAll, DeliverAll, Improv.WriteAll, Improv.Packet, Improv.Valid, Requests, PlainRequests;
    assert [] + Concat(Parts(ws)) == Concat(Parts(ws));
    Improv.WritesDeliver(c.server.rpc, Parts(ws), cmd);
  }

  // ---- Prepared writes ----

  /** Prepare Writes of the parts, from an offset. */
  function PrepareRequests(parts: seq<Bytes>, offset: nat): (r: seq<Bytes>)
    ensures |r| == |parts|
  {
    if parts == [] then []
    else
      [[0x16] + GattTable.Handle16(GattTable.RPC_VALUE) + GattTable.Handle16(offset) + parts[0]]
      + PrepareRequests(parts[1..], offset + |parts[0]|)
  }

  lemma PrepareOne(s: Server, part: Bytes, max: nat)
    requires Valid(s) && max >= GattServer.MTU_MIN && |s.gatt.prep| + |part| <= GattServer.PREP_MAX
    ensures var req := [0x16] + GattTable.Handle16(GattTable.RPC_VALUE) + GattTable.Handle16(|s.gatt.prep|) + part;
            Att(s, req, max) == s.(gatt := s.gatt.(prep := s.gatt.prep + part))
  {
    var req := [0x16] + GattTable.Handle16(GattTable.RPC_VALUE) + GattTable.Handle16(|s.gatt.prep|) + part;
    assert req[5..] == part;
    GattTable.Get16OfHandle(req, 1, GattTable.RPC_VALUE);
    GattTable.Get16OfHandle(req, 3, |s.gatt.prep|);
    hide Improv.Write, GattTable.Get16;
  }

  lemma {:induction false} PrepareAll(s: Server, parts: seq<Bytes>, max: nat)
    requires Valid(s) && max >= GattServer.MTU_MIN && |s.gatt.prep| + |Concat(parts)| <= GattServer.PREP_MAX
    ensures AttAll(s, PrepareRequests(parts, |s.gatt.prep|), max) == s.(gatt := s.gatt.(prep := s.gatt.prep + Concat(parts)))
    decreases |parts|
  {
    hide Att;
    var rs := PrepareRequests(parts, |s.gatt.prep|);
    if parts == [] {
      assert s.gatt.prep + [] == s.gatt.prep;
    } else {
      PrepareOne(s, parts[0], max);
      var next := s.(gatt := s.gatt.(prep := s.gatt.prep + parts[0]));
      Assoc(s.gatt.prep, parts[0], Concat(parts[1..]));
      assert rs[1..] == PrepareRequests(parts[1..], |next.gatt.prep|);
      PrepareAll(next, parts[1..], max);
    }
  }

  lemma ExecuteOne(s: Server, max: nat)
    requires Valid(s) && max >= GattServer.MTU_MIN && s.gatt.prep != []
    ensures Att(s, [0x18, 0x01], max) == Shown(s.(gatt := s.gatt.(prep := [])), Improv.Write(s.rpc, s.gatt.prep))
  {
    hide Improv.Write;
  }

  lemma {:induction false} AttAppend(s: Server, a: seq<Bytes>, last: Bytes, max: nat)
    requires Valid(s) && max >= GattServer.MTU_MIN
    ensures AttAll(s, a + [last], max) == Att(AttAll(s, a, max), last, max)
    decreases |a|
  {
    hide Att;
    var all := a + [last];
    if a == [] {
      assert all == [last] && all[1..] == [];
    } else {
      assert all[0] == a[0] && all[1..] == a[1..] + [last];
      AttAppend(Att(s, a[0], max), a[1..], last, max);
    }
  }

  /** A valid packet in Prepare Writes and an Execute Write: the same command, again for any
      parts and any fragments. */
  lemma PreparedWritesDeliver(c: Conn, ds: seq<Delivery>, parts: seq<Bytes>, cmd: Improv.Command, max: nat)
    requires Valid(c.server) && max >= GattServer.MTU_MIN && AllDeliver(ds)
    requires Requests(ds) == PrepareRequests(parts, 0) + [[0x18, 0x01]]
    requires Improv.Valid(cmd) && Concat(parts) == Improv.Packet(cmd)
    requires c.server.gatt.prep == [] && c.server.rpc.buf == []
    ensures DeliverAll(c, ds, max).server ==
            Shown(c.server, Improv.Rpc([], Improv.ERR_NONE, c.server.rpc.commands + [cmd]))
  {
    DeliveriesAreRequests(c, ds, max);
    var s, p := c.server, Concat(parts);
    PrepareAll(s, parts, max);
    AttAppend(s, PrepareRequests(parts, 0), [0x18, 0x01], max);
    assert [] + p == p;
    ExecuteOne(s.(gatt := s.gatt.(prep := p)), max);
    hide AttAll, Att, DeliverAll, Improv.Packet, Improv.Valid, Improv.Write, Requests, PrepareRequests;
    hide GattServer.Valid;
    Improv.WritePart(s.rpc, p, cmd);
  }

  // ---- What a client reads back ----

  /** After plain writes, a client reads at handle 11 the error of the last write that was not only
      kept: 1 after one that did not fit, 2 after an unknown command, 0 after a valid one. */
  lemma ErrorIsRead(s: Server, ws: seq<Write>, max: nat)
    requires Valid(s) && s.gatt.mtu <= max
    ensures var e := AttAll(s, PlainRequests(ws), max);
            && GattClient.ReadLong(GattTable.DB, e.gatt, 11, max) == Some([Improv.WriteAll(s.rpc, Parts(ws)).error])
            && e.gatt.prep == s.gatt.prep && e.gatt.values.cccd == s.gatt.values.cccd
  {
    hide AttAll, Improv.WriteAll, PlainRequests, Parts, GattClient.ReadLong;
    PlainWrites(s, ws, max);
    ShownIsValid(s, Improv.WriteAll(s.rpc, Parts(ws)));
    GattClient.ImprovIsRead(AttAll(s, PlainRequests(ws), max).gatt, 11, max);
  }

  lemma ShownIsValid(s: Server, rpc: Improv.Rpc)
    requires Valid(s)
    ensures Valid(Shown(s, rpc)) && Shown(s, rpc).gatt.mtu == s.gatt.mtu
  {
  }

  /** The other channels do not reach the ATT server. */
  lemma OtherChannels(c: Conn, fs: seq<AclLink.Fragment>, f: AclLink.Frame, max: nat)
    requires Valid(c.server) && max >= GattServer.MTU_MIN && AclLink.Carries(fs, f) && f.cid != 4
    ensures ReceiveAll(c, AclLink.Packets(fs), max) == Conn([], c.server)
  {
    hide AclLink.HandleAll, AclLink.Packets, Att, Valid, ReceiveAll;
    AclLink.FragmentsDoNotMatter(c.l2, fs, f);
    PacketsAreFrames(c, AclLink.Packets(fs), max);
    assert [f][1..] == [];
  }
}
