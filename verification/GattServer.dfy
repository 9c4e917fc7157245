/**
 The ATT server: one request in, at most one response out.  `Handle` says what a request does;
 the class Gatt does it with the loops and the buffers of the server.
 */
module GattServer {
  import opened Words
  import opened GattTable

  const ERR_WRITE_NOT_PERM: byte := 0x03
  const ERR_NOT_SUPPORTED: byte := 0x06
  const ERR_INVALID_OFFSET: byte := 0x07
  const ERR_QUEUE_FULL: byte := 0x09
  const ERR_NOT_FOUND: byte := 0x0a
  const ERR_INVALID_LEN: byte := 0x0d

  const MTU_MIN := 23
  const PREP_MAX := 128

  datatype State = State(values: Values, mtu: nat, mtuMax: nat, prep: Bytes)

  predicate Valid(s: State) {
    ValuesOk(s.values) && MTU_MIN <= s.mtu <= s.mtuMax && |s.prep| <= PREP_MAX
  }

  /** What a request does: the new state, the response, and what is written to the RPC command. */
  datatype Outcome = Outcome(state: State, rsp: Bytes, rpc: Option<Bytes>)

  function ErrorRsp(op: byte, h: nat, error: byte): (r: Bytes)
    ensures |r| == 5 && r[0] == 0x01
  {
    [0x01, op] + Handle16(h) + [error]
  }

  function Min(a: int, b: int): int {
    if a < b then a else b
  }

  // ---- Reads ----

  /** A list of entries as a response: the code, the format and the entries. */
  function ListRsp(op: byte, format: byte, es: seq<Bytes>): Bytes {
    [op, format] + Concat(es)
  }

  /** read_by_type() */
  function ReadByType(t: seq<Attr>, v: Values, req: Bytes, max: nat): (r: Bytes)
    requires ValuesOk(v) && |req| >= 7 && max >= MTU_MIN && req[0] < 0xff
    ensures 0 < |r| <= max
  {
    var start, end, want := Get16(req, 1), Get16(req, 3), req[5..];
    if |want| != 2 && |want| != 16 then ErrorRsp(req[0], start, ERR_INVALID_LEN)
    else if start == 0 || start > end then ErrorRsp(req[0], start, ERR_INVALID_HANDLE)
    else
      var cs := Candidates(t, v, req[0] == 0x10, want, start, end);
      var es := Collect(cs, max - 2, 0);
      if es != [] then ListRsp(req[0] + 1, |es[0]| % 0x100, es)
      else if cs != [] && cs[0].Refused? then ErrorRsp(req[0], cs[0].handle, cs[0].error)
      else ErrorRsp(req[0], start, ERR_NOT_FOUND)
  }

  /** find_info() */
  function FindInfo(t: seq<Attr>, req: Bytes, max: nat): (r: Bytes)
    requires |req| == 5 && max >= MTU_MIN
    ensures 0 < |r| <= max
  {
    var start, end := Get16(req, 1), Get16(req, 3);
    if start == 0 || start > end then ErrorRsp(req[0], start, ERR_INVALID_HANDLE)
    else
      var es := Collect(InfoEntries(t, start, end), max - 2, 0);
      if es == [] then ErrorRsp(req[0], start, ERR_NOT_FOUND)
      else ListRsp(0x05, if |es[0]| == 4 then 1 else 2, es)
  }

  /** The services with a UUID from `h` to `end`, each with its group end. */
  function ServiceEntries(t: seq<Attr>, uuid: Bytes, h: nat, end: nat): (r: seq<Bytes>)
    requires h > 0
    ensures forall i :: 0 <= i < |r| ==> |r[i]| == 4
    decreases |t| + 1 - h
  {
    if h > end || h > |t| then []
    else
      var later := ServiceEntries(t, uuid, h + 1, end);
      if t[h - 1].kind.Svc? && t[h - 1].uuid == uuid then [Handle16(h) + Handle16(GroupEnd(t, h))] + later else later
  }

  /** The first entries of four bytes that fit. */
  function Fitting(es: seq<Bytes>, room: nat): (r: seq<Bytes>)
    ensures r <= es
  {
    if 4 * |es| <= room then es else es[..room / 4]
  }

  lemma {:induction false} ConcatLength(es: seq<Bytes>)
    requires forall i :: 0 <= i < |es| ==> |es[i]| == 4
    ensures |Concat(es)| == 4 * |es|
  {
    if es != [] {
      ConcatLength(es[1..]);
    }
  }

  /** find_by_value(): the services with the UUID that fit, in order and without a gap. */
  function FindByValue(t: seq<Attr>, req: Bytes, max: nat): (r: Bytes)
    requires |req| >= 7 && max >= MTU_MIN
    ensures 0 < |r| <= max
  {
    var start, end := Get16(req, 1), Get16(req, 3);
    if start == 0 || start > end then ErrorRsp(req[0], start, ERR_INVALID_HANDLE)
    else
      var es := if req[5..7] == SVC_TYPE then Fitting(ServiceEntries(t, req[7..], start, end), max - 1) else [];
      ConcatLength(es);
      if es == [] then ErrorRsp(req[0], start, ERR_NOT_FOUND) else [0x07] + Concat(es)
  }

  /** read_value() */
  function ReadValue(t: seq<Attr>, v: Values, req: Bytes, max: nat): (r: Bytes)
    requires ValuesOk(v) && |req| >= 3 && max >= MTU_MIN && req[0] < 0xff
    ensures 0 < |r| <= max
  {
    var h := Get16(req, 1);
    var off := if req[0] == 0x0c && |req| >= 5 then Get16(req, 3) else 0;
    match AttrValue(t, v, h)
    case Denied(e) => ErrorRsp(req[0], h, e)
    case Data(d) =>
      if off > |d| then ErrorRsp(req[0], h, ERR_INVALID_OFFSET)
      else [req[0] + 1] + d[off..Min(|d|, off + max - 1)]
  }

  // ---- Writes ----

  /** write_value(): the ATT error, or 0. */
  function WriteValue(t: seq<Attr>, s: State, h: nat, data: Bytes): (State, byte, Option<Bytes>)
    requires Valid(s)
  {
    var i := CccdIndex(h);
    if i.Some? then
      if |data| != 2 then (s, ERR_INVALID_LEN, None)
      else (s.(values := s.values.(cccd := s.values.cccd[i.value := Get16(data, 0)])), 0, None)
    else if h == RPC_VALUE then (s, 0, Some(data))
    else (s, if h < 1 || h > |t| then ERR_INVALID_HANDLE else ERR_WRITE_NOT_PERM, None)
  }

  /** A write is taken exactly for the RPC command, and for a descriptor with two bytes; only the
      first one goes on to the RPC command, and only the second one changes the state. */
  lemma DbWrites(s: State, h: nat, data: Bytes)
    requires Valid(s)
    ensures var (s', error, rpc) := WriteValue(DB, s, h, data);
            && (error == 0 <==> h == RPC_VALUE || (1 <= h <= 19 && DB[h - 1].kind.Cccd? && |data| == 2))
            && (error == ERR_WRITE_NOT_PERM <==> 1 <= h <= 19 && h != RPC_VALUE && !DB[h - 1].kind.Cccd?)
            && (error == ERR_INVALID_HANDLE <==> h < 1 || h > 19)
            && (rpc == if h == RPC_VALUE then Some(data) else None)
            && (error != 0 || h == RPC_VALUE ==> s' == s)
  {
    DbIsWellFormed();
    if 1 <= h <= 19 {
      DbHandles(h);
    }
    hide WellFormed;
  }

  function WriteRequest(t: seq<Attr>, s: State, req: Bytes): Outcome
    requires Valid(s) && |req| >= 3
  {
    var (s', error, rpc) := WriteValue(t, s, Get16(req, 1), req[3..]);
    Outcome(s', if error != 0 then ErrorRsp(req[0], Get16(req, 1), error) else [0x13], rpc)
  }

  function WriteCommand(t: seq<Attr>, s: State, req: Bytes): Outcome
    requires Valid(s) && |req| >= 3
  {
    var (s', _, rpc) := WriteValue(t, s, Get16(req, 1), req[3..]);
    Outcome(s', [], rpc)
  }

  function PrepareWrite(s: State, req: Bytes, max: nat): Outcome
    requires Valid(s) && |req| >= 5 && max >= MTU_MIN
  {
    if Get16(req, 1) != RPC_VALUE then Fails(s, req[0], Get16(req, 1), ERR_WRITE_NOT_PERM)
    else if Get16(req, 3) != |s.prep| then Fails(s, req[0], Get16(req, 1), ERR_INVALID_OFFSET)
    else if |s.prep| + |req| - 5 > PREP_MAX then Fails(s, req[0], Get16(req, 1), ERR_QUEUE_FULL)
    else Outcome(s.(prep := s.prep + req[5..]), [0x17] + req[1..Min(|req|, max)], None)
  }

  function ExecuteWrite(s: State, req: Bytes): Outcome {
    Outcome(s.(prep := []), [0x19], if |req| >= 2 && req[1] == 1 && s.prep != [] then Some(s.prep) else None)
  }

  function ExchangeMtu(s: State, req: Bytes): Outcome
    requires Valid(s) && |req| >= 3
  {
    var mtu := Min(Get16(req, 1), s.mtuMax);
    Outcome(s.(mtu := if mtu < MTU_MIN then MTU_MIN else mtu), [0x03] + Handle16(s.mtuMax), None)
  }

  function Fails(s: State, op: byte, h: nat, error: byte): Outcome {
    Outcome(s, ErrorRsp(op, h, error), None)
  }

  /** gatt_handle(), with room for `max` bytes. */
  function Handle(t: seq<Attr>, s: State, req: Bytes, max: nat): Outcome
    requires Valid(s) && max >= MTU_MIN
  {
    if req == [] then Outcome(s, [], None)
    else
      var op, n, room := req[0], |req|, Min(max, s.mtu);
      if op == 0x02 then if n < 3 then Fails(s, op, 0, ERR_INVALID_LEN) else ExchangeMtu(s, req)
      else if op == 0x04 then if n == 5 then Outcome(s, FindInfo(t, req, room), None) else Fails(s, op, 0, ERR_INVALID_LEN)
      else if op == 0x06 then if n >= 7 then Outcome(s, FindByValue(t, req, room), None) else Fails(s, op, 0, ERR_INVALID_LEN)
      else if op == 0x08 || op == 0x10 then
        if n >= 7 then Outcome(s, ReadByType(t, s.values, req, room), None) else Fails(s, op, 0, ERR_INVALID_LEN)
      else if op == 0x0a || op == 0x0c then
        if n >= 3 then Outcome(s, ReadValue(t, s.values, req, room), None) else Fails(s, op, 0, ERR_INVALID_LEN)
      else if op == 0x12 then if n < 3 then Fails(s, op, 0, ERR_INVALID_LEN) else WriteRequest(t, s, req)
      else if op == 0x52 then if n >= 3 then WriteCommand(t, s, req) else Outcome(s, [], None)
      else if op == 0x16 then if n < 5 then Fails(s, op, 0, ERR_INVALID_LEN) else PrepareWrite(s, req, room)
      else if op == 0x18 then ExecuteWrite(s, req)
      else if op == 0x1e then Outcome(s, [], None)
      else if op / 0x40 % 2 == 1 then Outcome(s, [], None) else Fails(s, op, 0, ERR_NOT_SUPPORTED)
  }

  /** Each request keeps the limits of the state, and the response fits in the room and in the
      MTU before the request. */
  lemma HandleKeeps(t: seq<Attr>, s: State, req: Bytes, max: nat)
    requires Valid(s) && max >= MTU_MIN
    ensures var o := Handle(t, s, req, max);
            && Valid(o.state) && o.state.mtuMax == s.mtuMax
            && |o.rsp| <= max && |o.rsp| <= s.mtu
            && (o.rpc.Some? ==> |o.rpc.value| <= |req| || |o.rpc.value| <= PREP_MAX)
  {
    hide ReadByType, FindInfo, FindByValue, ReadValue, ErrorRsp, ValuesOk;
    if |req| >= 3 && (req[0] == 0x12 || req[0] == 0x52) {
      WriteKeeps(t, s, Get16(req, 1), req[3..]);
      hide WriteValue;
    }
  }

  lemma WriteKeeps(t: seq<Attr>, s: State, h: nat, data: Bytes)
    requires Valid(s)
    ensures var (s', error, rpc) := WriteValue(t, s, h, data);
            Valid(s') && s'.mtuMax == s.mtuMax && (rpc.Some? ==> rpc.value == data)
  {
  }

  /** The responses of a run of requests, each with the MTU that was in use. */
  function HandleAll(t: seq<Attr>, s: State, reqs: seq<Bytes>, max: nat): (r: (State, seq<(nat, Bytes)>))
    requires Valid(s) && max >= MTU_MIN
    decreases |reqs|
  {
    if reqs == [] then (s, [])
    else
      var o := Handle(t, s, reqs[0], max);
      HandleKeeps(t, s, reqs[0], max);
      var (e, more) := HandleAll(t, o.state, reqs[1..], max);
      (e, [(s.mtu, o.rsp)] + more)
  }

  /** Over each sequence of requests, the MTU and the prepared writes stay in their limits, and
      each response fits. */
  lemma {:induction false} RunKeepsLimits(t: seq<Attr>, s: State, reqs: seq<Bytes>, max: nat)
    requires Valid(s) && max >= MTU_MIN
    ensures var (e, rsps) := HandleAll(t, s, reqs, max);
            && MTU_MIN <= e.mtu <= e.mtuMax == s.mtuMax && |e.prep| <= PREP_MAX
            && |rsps| == |reqs| && forall i :: 0 <= i < |rsps| ==> |rsps[i].1| <= max && |rsps[i].1| <= rsps[i].0
    decreases |reqs|
  {
    hide Handle;
    if reqs != [] {
      HandleKeeps(t, s, reqs[0], max);
      RunKeepsLimits(t, Handle(t, s, reqs[0], max).state, reqs[1..], max);
    }
  }

  // ---- What requests leave behind ----

  /** A write of two bytes to the descriptor with handle `h`. */
  predicate Subscribes(req: Bytes, h: byte) {
    |req| == 5 && (req[0] == 0x12 || req[0] == 0x52) && req[1] == h && req[2] == 0
  }

  /** The bytes of a descriptor after some requests: those of its last write. */
  function Written(reqs: seq<Bytes>, h: byte, was: Bytes): Bytes {
    if reqs == [] then was
    else Written(reqs[1..], h, if Subscribes(reqs[0], h) then reqs[0][3..5] else was)
  }

  /** The MTU after some requests: the last one that a client asked for, between 23 and the limit. */
  function Agreed(reqs: seq<Bytes>, mtu: nat, mtuMax: nat): nat {
    if reqs == [] then mtu
    else
      var req := reqs[0];
      Agreed(reqs[1..],
             if |req| < 3 || req[0] != 0x02 then mtu
             else
               var asked := req[1] as int + 0x100 * req[2] as int;
               if asked < 23 then 23 else if asked > mtuMax then mtuMax else asked,
             mtuMax)
  }

  /** The two bytes of a descriptor. */
  function Descriptor(v: Values, h: byte): Bytes
    requires ValuesOk(v) && CccdIndex(h).Some?
  {
    Le16(v.cccd[CccdIndex(h).value])
  }

  /** A write changes the descriptor that it names, and nothing else. */
  lemma WriteStores(s: State, h: nat, data: Bytes, k: byte)
    requires Valid(s) && (k == 9 || k == 12 || k == 17)
    ensures var s' := WriteValue(DB, s, h, data).0;
            && s' == s.(values := s.values.(cccd := s'.values.cccd)) && |s'.values.cccd| == 3
            && Descriptor(s'.values, k) == if h == k && |data| == 2 then data else Descriptor(s.values, k)
  {
  }

  /** So does a request that is a write; the others leave all values. */
  lemma HandleWrites(s: State, req: Bytes, max: nat, k: byte)
    requires Valid(s) && max >= MTU_MIN && (k == 9 || k == 12 || k == 17)
    ensures var v := Handle(DB, s, req, max).state.values;
            && ValuesOk(v) && v == s.values.(cccd := v.cccd)
            && Descriptor(v, k) == if Subscribes(req, k) then req[3..5] else Descriptor(s.values, k)
  {
    hide ReadByType, FindInfo, FindByValue, ReadValue, ErrorRsp, WriteValue, Descriptor;
    if |req| >= 3 && (req[0] == 0x12 || req[0] == 0x52) {
      WriteStores(s, Get16(req, 1), req[3..], k);
      assert |req| == 5 ==> req[3..] == req[3..5];
    }
  }

  /** The MTU is the client's, within the limits, and the answer tells it the limit. */
  lemma MtuAgrees(s: State, req: Bytes)
    requires Valid(s) && |req| >= 3 && req[0] == 0x02
    ensures var o := ExchangeMtu(s, req);
            && o.state == s.(mtu := Agreed([req], s.mtu, s.mtuMax))
            && |o.rsp| == 3 && o.rsp[0] == 0x03 && (s.mtuMax < 0x1_0000 ==> Get16(o.rsp, 1) == s.mtuMax)
  {
    hide ValuesOk;
    AgreedOne(req, s.mtu, s.mtuMax);
    if s.mtuMax < 0x1_0000 {
      Get16OfHandle(ExchangeMtu(s, req).rsp, 1, s.mtuMax);
    }
  }

  lemma AgreedOne(req: Bytes, mtu: nat, mtuMax: nat)
    ensures Agreed([req], mtu, mtuMax) ==
            if |req| < 3 || req[0] != 0x02 then mtu
            else
              var asked := req[1] as int + 0x100 * req[2] as int;
              if asked < 23 then 23 else if asked > mtuMax then mtuMax else asked
  {
    var only: seq<Bytes> := [req];
    assert only[1..] == [];
  }

  lemma OthersKeepMtu(s: State, req: Bytes, max: nat)
    requires Valid(s) && max >= MTU_MIN && (|req| < 3 || req[0] != 0x02)
    ensures Handle(DB, s, req, max).state.mtu == s.mtu && Handle(DB, s, req, max).state.mtuMax == s.mtuMax
  {
    hide ReadByType, FindInfo, FindByValue, ReadValue, ErrorRsp, WriteValue, ValuesOk, Get16;
    if |req| >= 3 && (req[0] == 0x12 || req[0] == 0x52) {
      WriteStores(s, Get16(req, 1), req[3..], 9);
    }
  }

  lemma HandleAgrees(s: State, req: Bytes, max: nat)
    requires Valid(s) && max >= MTU_MIN
    ensures var o := Handle(DB, s, req, max);
            && o.state.mtuMax == s.mtuMax && o.state.mtu == Agreed([req], s.mtu, s.mtuMax)
            && (|req| >= 3 && req[0] == 0x02 ==> o == ExchangeMtu(s, req))
  {
    if |req| >= 3 && req[0] == 0x02 {
      MtuAgrees(s, req);
      hide ExchangeMtu, Agreed;
    } else {
      hide Handle, Agreed;
      OthersKeepMtu(s, req, max);
      AgreedOne(req, s.mtu, s.mtuMax);
    }
  }

  /** What the server shows depends on the requests only through the descriptors, and the bytes of a
      descriptor are those of the last write to it, whatever else was asked in between. */
  lemma {:induction false} RunStores(s: State, reqs: seq<Bytes>, max: nat, k: byte)
    requires Valid(s) && max >= MTU_MIN && (k == 9 || k == 12 || k == 17)
    ensures var e := HandleAll(DB, s, reqs, max).0;
            && ValuesOk(e.values) && e.values == s.values.(cccd := e.values.cccd)
            && Descriptor(e.values, k) == Written(reqs, k, Descriptor(s.values, k))
            && e.mtu == Agreed(reqs, s.mtu, s.mtuMax)
    decreases |reqs|
  {
    hide Handle, Descriptor, Subscribes;
    if reqs != [] {
      HandleKeeps(DB, s, reqs[0], max);
      HandleWrites(s, reqs[0], max, k);
      HandleAgrees(s, reqs[0], max);
      RunStores(Handle(DB, s, reqs[0], max).state, reqs[1..], max, k);
      AgreedStep(reqs, s.mtu, s.mtuMax);
    }
  }

  lemma AgreedStep(reqs: seq<Bytes>, mtu: nat, mtuMax: nat)
    requires reqs != []
    ensures Agreed(reqs, mtu, mtuMax) == Agreed(reqs[1..], Agreed([reqs[0]], mtu, mtuMax), mtuMax)
  {
    var first: seq<Bytes> := [reqs[0]];
    assert first[1..] == [];
  }

  /** A request that does nothing else is refused: what it names, and why. */
  lemma Refusals(t: seq<Attr>, s: State, req: Bytes, max: nat)
    requires Valid(s) && max >= MTU_MIN && req != []
    ensures var o, op := Handle(t, s, req, max), req[0];
            && (op == 0x1e || (op / 0x40 % 2 == 1 && (op != 0x52 || |req| < 3)) ==> o == Outcome(s, [], None))
            && (op in {0x02, 0x0a, 0x0c, 0x12} && |req| < 3 ==> o == Outcome(s, [0x01, op, 0, 0, 0x0d], None))
            && (op in {0x06, 0x08, 0x10} && |req| < 7 ==> o == Outcome(s, [0x01, op, 0, 0, 0x0d], None))
            && (op == 0x16 && |req| < 5 ==> o == Outcome(s, [0x01, op, 0, 0, 0x0d], None))
            && (op == 0x04 && |req| != 5 ==> o == Outcome(s, [0x01, op, 0, 0, 0x0d], None))
            && (op !in {0x02, 0x04, 0x06, 0x08, 0x0a, 0x0c, 0x10, 0x12, 0x16, 0x18, 0x1e} && op / 0x40 % 2 == 0 ==>
                  o == Outcome(s, [0x01, op, 0, 0, 0x06], None))
  {
    hide ReadByType, FindInfo, FindByValue, ReadValue, WriteValue, ValuesOk, Get16;
  }

  /** The answer to a write: the error for its handle, or the acknowledgement; a command has none. */
  lemma WriteAnswers(s: State, req: Bytes, max: nat)
    requires Valid(s) && max >= MTU_MIN && |req| >= 3 && (req[0] == 0x12 || req[0] == 0x52)
    ensures var o, h := Handle(DB, s, req, max), req[1] as int + 0x100 * req[2] as int;
            && (o.rpc == if h == 14 then Some(req[3..]) else None)
            && (o.rsp ==
                  if req[0] == 0x52 then []
                  else if h == 14 || (h in {9, 12, 17} && |req| == 5) then [0x13]
                  else [0x01, 0x12, req[1], req[2],
                        if h in {9, 12, 17} then 0x0d else if 1 <= h <= 19 then 0x03 else 0x01])
  {
    hide ReadByType, FindInfo, FindByValue, ReadValue;
    DbIsWellFormed();
    hide WellFormed;
  }
}
