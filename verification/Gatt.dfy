/** The ATT server with its loops and buffers, against the specification in GattServer. */
module Gatt {
  import opened Words
  import opened GattTable
  import opened GattServer

  // ---- The loop that fills a list ----

  ghost predicate Joined(all: seq<Bytes>, es: seq<Bytes>, later: seq<Bytes>) {
    all == es + later
  }

  /** `es`, with `used` bytes, is collected from `all`, and `rest` is still to see. */
  ghost predicate Gathered(all: seq<Candidate>, room: nat, es: seq<Bytes>, used: nat, rest: seq<Candidate>, entry: nat) {
    && used <= room && Joined(Collect(all, room, 0), es, Collect(rest, room - used, entry))
    && FirstLength(es, entry) && (entry == 0 ==> rest == all)
  }

  ghost predicate Collecting(all: seq<Candidate>, room: nat, es: seq<Bytes>, rest: seq<Candidate>, entry: nat) {
    Gathered(all, room, es, |Concat(es)|, rest, entry)
  }

  /** `entry` is the length of the first entry, 0 before it. */
  ghost predicate FirstLength(es: seq<Bytes>, entry: nat) {
    (entry == 0 <==> es == []) && (es != [] ==> |es[0]| == entry)
  }

  lemma StillFirst(es: seq<Bytes>, entry: nat, b: Bytes)
    requires FirstLength(es, entry) && b != [] && (entry == 0 || |b| == entry)
    ensures FirstLength(es + [b], |b|)
  {
  }

  lemma Begins(all: seq<Candidate>, room: nat)
    ensures Collecting(all, room, [], all, 0)
  {
    hide Collect;
  }

  lemma Takes(all: seq<Candidate>, room: nat, es: seq<Bytes>, rest: seq<Candidate>, entry: nat)
    requires Collecting(all, room, es, rest, entry) && rest != [] && rest[0].Entry? && rest[0].bytes != []
    requires (entry == 0 || |rest[0].bytes| == entry) && |Concat(es)| + |rest[0].bytes| <= room
    ensures Collecting(all, room, es + [rest[0].bytes], rest[1..], |rest[0].bytes|)
    ensures Concat(es + [rest[0].bytes]) == Concat(es) + rest[0].bytes
  {
    hide Concat, Gathered;
    ConcatMore(es, rest[0].bytes);
    GathersMore(all, room, es, |Concat(es)|, rest, entry);
  }

  lemma GathersMore(all: seq<Candidate>, room: nat, es: seq<Bytes>, used: nat, rest: seq<Candidate>, entry: nat)
    requires Gathered(all, room, es, used, rest, entry) && rest != [] && rest[0].Entry? && rest[0].bytes != []
    requires (entry == 0 || |rest[0].bytes| == entry) && used + |rest[0].bytes| <= room
    ensures var b := rest[0].bytes; Gathered(all, room, es + [b], used + |b|, rest[1..], |b|)
  {
    hide Collect, Joined, FirstLength;
    StillFirst(es, entry, rest[0].bytes);
    Moves(Collect(all, room, 0), es, rest, room - used, entry);
  }

  lemma Moves(all: seq<Bytes>, es: seq<Bytes>, rest: seq<Candidate>, left: nat, entry: nat)
    requires rest != [] && rest[0].Entry? && 0 < |rest[0].bytes| <= left && (entry == 0 || |rest[0].bytes| == entry)
    requires Joined(all, es, Collect(rest, left, entry))
    ensures var b := rest[0].bytes; Joined(all, es + [b], Collect(rest[1..], left - |b|, |b|))
  {
    hide Collect;
    var b := rest[0].bytes;
    CollectTakes(rest, left, entry);
    Assoc(es, [b], Collect(rest[1..], left - |b|, |b|));
  }

  lemma ConcatMore(es: seq<Bytes>, b: Bytes)
    ensures Concat(es + [b]) == Concat(es) + b
  {
    hide Concat;
    ConcatAppend(es, [b]);
    ConcatOne(b);
  }

  lemma ConcatOne(b: Bytes)
    ensures Concat([b]) == b
  {
    assert [b][1..] == [];
  }

  lemma Stops(all: seq<Candidate>, room: nat, es: seq<Bytes>, rest: seq<Candidate>, entry: nat)
    requires Collecting(all, room, es, rest, entry)
    requires rest == [] || rest[0].Refused? || (entry != 0 && |rest[0].bytes| != entry)
             || |Concat(es)| + |rest[0].bytes| > room
    ensures Collect(all, room, 0) == es && (es == [] ==> rest == all)
  {
    hide Concat;
    assert es + [] == es;
  }

  lemma CandidatesFrom(t: seq<Attr>, v: Values, group: bool, want: Bytes, h: nat, end: nat)
    requires ValuesOk(v) && h > 0
    ensures Candidates(t, v, group, want, h, end) ==
            if h > end || h > |t| then []
            else if AttrType(t[h - 1]) == want
            then [EntryOf(t, v, group, h)] + Candidates(t, v, group, want, h + 1, end)
            else Candidates(t, v, group, want, h + 1, end)
  {
  }

  lemma ListIs(t: seq<Attr>, v: Values, req: Bytes, max: nat, es: seq<Bytes>)
    requires ValuesOk(v) && |req| >= 7 && max >= MTU_MIN && req[0] < 0xff
    requires |req| == 7 || |req| == 21
    requires 0 < Get16(req, 1) <= Get16(req, 3)
    requires Collect(Candidates(t, v, req[0] == 0x10, req[5..], Get16(req, 1), Get16(req, 3)), max - 2, 0) == es
    ensures es != [] ==> ReadByType(t, v, req, max) == [req[0] + 1, |es[0]| % 0x100] + Concat(es)
    ensures es == [] ==>
              var cs := Candidates(t, v, req[0] == 0x10, req[5..], Get16(req, 1), Get16(req, 3));
              ReadByType(t, v, req, max) ==
              if cs != [] && cs[0].Refused? then ErrorRsp(req[0], cs[0].handle, cs[0].error)
              else ErrorRsp(req[0], Get16(req, 1), ERR_NOT_FOUND)
  {
    hide Collect, Concat, Candidates, Get16, ErrorRsp;
  }

  /** read_by_type() */
  method FillByType(t: seq<Attr>, v: Values, req: Bytes, max: nat) returns (rsp: Bytes)
    requires ValuesOk(v) && |req| >= 7 && max >= MTU_MIN && req[0] < 0xff
    ensures rsp == ReadByType(t, v, req, max)
  {
    hide Collect, Concat, Candidates, Collecting, ErrorRsp, AttrType, AttrValue, Get16, GroupEnd;
    var start, end, want, group := Get16(req, 1), Get16(req, 3), req[5..], req[0] == 0x10;
    if (|want| != 2 && |want| != 16) || start == 0 || start > end {
      return ErrorRsp(req[0], start, if |want| != 2 && |want| != 16 then ERR_INVALID_LEN else ERR_INVALID_HANDLE);
    }
    hide ReadByType, ValuesOk;
    var body: Bytes, entry, h: nat := [], 0, start;
    ghost var es: seq<Bytes>, all := [], Candidates(t, v, group, want, start, end);
    Begins(all, max - 2);
    assert Concat([]) == [] by { ConcatNone(); }
    while h <= end && h <= |t|
      invariant h > 0 && body == Concat(es) && (entry == 0 <==> es == []) && (es != [] ==> |es[0]| == entry)
      invariant Collecting(all, max - 2, es, Candidates(t, v, group, want, h, end), entry)
    {
      CandidatesFrom(t, v, group, want, h, end);
      if AttrType(t[h - 1]) == want {
        var e := FillEntry(t, v, group, h);
        if e.Refused? && entry == 0 {
          Stops(all, max - 2, es, Candidates(t, v, group, want, h, end), entry);
          ListIs(t, v, req, max, es);
          return ErrorRsp(req[0], h, e.error);
        }
        if e.Refused? || (entry != 0 && |e.bytes| != entry) || 2 + |body| + |e.bytes| > max {
          break;
        }
        Takes(all, max - 2, es, Candidates(t, v, group, want, h, end), entry);
        es := es + [e.bytes];
        body := body + e.bytes;
        entry := |e.bytes|;
      }
      h := h + 1;
    }
    CandidatesFrom(t, v, group, want, h, end);
    Stops(all, max - 2, es, Candidates(t, v, group, want, h, end), entry);
    ListIs(t, v, req, max, es);
    if entry == 0 {
      return ErrorRsp(req[0], start, ERR_NOT_FOUND);
    }
    rsp := [req[0] + 1, entry % 0x100] + body;
  }

  lemma ConcatNone()
    ensures Concat([]) == []
  {
  }

  /** The value of an attribute behind its handle, and its group end. */
  method FillEntry(t: seq<Attr>, v: Values, group: bool, h: nat) returns (e: Candidate)
    requires ValuesOk(v) && 1 <= h <= |t|
    ensures e == EntryOf(t, v, group, h) && (e.Entry? ==> e.bytes != []) && (e.Refused? ==> e.handle == h)
  {
    hide AttrValue;
    match AttrValue(t, v, h)
    case Denied(error) => e := Refused(h, error);
    case Data(d) =>
      if group {
        var end := FindGroupEnd(t, h);
        e := Entry(Handle16(h) + Handle16(end) + d);
      } else {
        e := Entry(Handle16(h) + [] + d);
      }
  }

  lemma InfoFrom(t: seq<Attr>, h: nat, end: nat)
    requires h > 0
    ensures InfoEntries(t, h, end) ==
            if h > end || h > |t| then [] else [Entry(Handle16(h) + AttrType(t[h - 1]))] + InfoEntries(t, h + 1, end)
  {
  }

  lemma InfoListIs(t: seq<Attr>, req: Bytes, max: nat, es: seq<Bytes>)
    requires |req| == 5 && max >= MTU_MIN && 0 < Get16(req, 1) <= Get16(req, 3)
    requires Collect(InfoEntries(t, Get16(req, 1), Get16(req, 3)), max - 2, 0) == es
    ensures FindInfo(t, req, max) ==
            if es == [] then ErrorRsp(req[0], Get16(req, 1), ERR_NOT_FOUND)
            else [0x05, if |es[0]| == 4 then 1 else 2] + Concat(es)
  {
    hide Collect, Concat, InfoEntries, Get16, ErrorRsp;
  }

  /** find_info() */
  method FillInfo(t: seq<Attr>, req: Bytes, max: nat) returns (rsp: Bytes)
    requires |req| == 5 && max >= MTU_MIN
    ensures rsp == FindInfo(t, req, max)
  {
    hide Collect, Concat, InfoEntries, Collecting, ErrorRsp, AttrType, Get16;
    var start, end := Get16(req, 1), Get16(req, 3);
    if start == 0 || start > end {
      return ErrorRsp(req[0], start, ERR_INVALID_HANDLE);
    }
    hide FindInfo;
    var body: Bytes, entry, h: nat := [], 0, start;
    ghost var es: seq<Bytes>, all := [], InfoEntries(t, start, end);
    Begins(all, max - 2);
    assert Concat([]) == [] by { ConcatNone(); }
    while h <= end && h <= |t|
      invariant h > 0 && body == Concat(es) && (entry == 0 <==> es == []) && (es != [] ==> |es[0]| == entry)
      invariant Collecting(all, max - 2, es, InfoEntries(t, h, end), entry)
    {
      InfoFrom(t, h, end);
      var e := Handle16(h) + AttrType(t[h - 1]);
      if (entry != 0 && |e| != entry) || 2 + |body| + |e| > max {
        break;
      }
      Takes(all, max - 2, es, InfoEntries(t, h, end), entry);
      es := es + [e];
      body := body + e;
      entry := |e|;
      h := h + 1;
    }
    InfoFrom(t, h, end);
    Stops(all, max - 2, es, InfoEntries(t, h, end), entry);
    InfoListIs(t, req, max, es);
    if entry == 0 {
      return ErrorRsp(req[0], start, ERR_NOT_FOUND);
    }
    rsp := [0x05, if entry == 4 then 1 else 2] + body;
  }

  /** What the scan of find_by_value() writes: a service that does not fit is skipped. */
  function Scan(t: seq<Attr>, uuid: Bytes, h: nat, end: nat, room: nat): Bytes
    requires h > 0
    decreases |t| + 1 - h
  {
    if h > end || h > |t| then []
    else if !t[h - 1].kind.Svc? || t[h - 1].uuid != uuid || 4 > room then Scan(t, uuid, h + 1, end, room)
    else Handle16(h) + Handle16(GroupEnd(t, h)) + Scan(t, uuid, h + 1, end, room - 4)
  }

  /** All entries have one size, so that after a service without room none has room: nothing is
      left out between the entries. */
  lemma {:induction false} ScanIsPrefix(t: seq<Attr>, uuid: Bytes, h: nat, end: nat, room: nat)
    requires h > 0
    ensures Scan(t, uuid, h, end, room) == Concat(Fitting(ServiceEntries(t, uuid, h, end), room))
    decreases |t| + 1 - h
  {
    hide GroupEnd, Handle16, Concat;
    ConcatNone();
    if h > end || h > |t| {
    } else if room < 4 {
      ScanFull(t, uuid, h, end, room);
    } else if t[h - 1].kind.Svc? && t[h - 1].uuid == uuid {
      ScanIsPrefix(t, uuid, h + 1, end, room - 4);
      var all, later := ServiceEntries(t, uuid, h, end), ServiceEntries(t, uuid, h + 1, end);
      assert Fitting(all, room) == [all[0]] + Fitting(later, room - 4);
      ConcatFirst(all[0], Fitting(later, room - 4));
    } else {
      ScanIsPrefix(t, uuid, h + 1, end, room);
    }
  }

  lemma {:induction false} ScanFull(t: seq<Attr>, uuid: Bytes, h: nat, end: nat, room: nat)
    requires h > 0 && room < 4
    ensures Scan(t, uuid, h, end, room) == [] && Fitting(ServiceEntries(t, uuid, h, end), room) == []
    decreases |t| + 1 - h
  {
    hide GroupEnd, Handle16, ServiceEntries;
    if h <= end && h <= |t| {
      ScanFull(t, uuid, h + 1, end, room);
    }
  }

  lemma ConcatFirst(b: Bytes, more: seq<Bytes>)
    ensures Concat([b] + more) == b + Concat(more)
  {
    assert ([b] + more)[1..] == more;
  }

  /** The scan has written `body`, and goes on at `h`. */
  ghost predicate Scanning(all: Bytes, body: Bytes, t: seq<Attr>, uuid: Bytes, h: nat, end: nat, room: nat)
    requires h > 0
  {
    all == body + Scan(t, uuid, h, end, room)
  }

  lemma ScanBegins(t: seq<Attr>, uuid: Bytes, h: nat, end: nat, room: nat)
    requires h > 0
    ensures Scanning(Scan(t, uuid, h, end, room), [], t, uuid, h, end, room)
  {
    hide Scan;
  }

  lemma ScanSteps(all: Bytes, body: Bytes, t: seq<Attr>, uuid: Bytes, h: nat, end: nat, room: nat)
    requires h > 0 && Scanning(all, body, t, uuid, h, end, room)
    ensures h > end || h > |t| ==> all == body
    ensures h <= end && h <= |t| ==>
              if t[h - 1].kind.Svc? && t[h - 1].uuid == uuid && 4 <= room
              then Scanning(all, body + (Handle16(h) + Handle16(GroupEnd(t, h))), t, uuid, h + 1, end, room - 4)
              else Scanning(all, body, t, uuid, h + 1, end, room)
  {
    hide GroupEnd, Handle16;
    if h > end || h > |t| {
      assert body + [] == body;
    } else if room >= 4 {
      Assoc(body, Handle16(h) + Handle16(GroupEnd(t, h)), Scan(t, uuid, h + 1, end, room - 4));
    }
  }

  /** find_by_value() */
  method FillByValue(t: seq<Attr>, req: Bytes, max: nat) returns (rsp: Bytes)
    requires |req| >= 7 && max >= MTU_MIN
    ensures rsp == FindByValue(t, req, max)
  {
    hide ErrorRsp, Get16, GroupEnd, FindByValue, ServiceEntries, Fitting, Scan, Scanning;
    var start, end, uuid, services := Get16(req, 1), Get16(req, 3), req[7..], req[5..7] == SVC_TYPE;
    ValueListIs(t, req, max);
    if start == 0 || start > end {
      return ErrorRsp(req[0], start, ERR_INVALID_HANDLE);
    }
    var body: Bytes, h: nat := [], start;
    ghost var all := Scan(t, uuid, start, end, max - 1);
    ScanBegins(t, uuid, start, end, max - 1);
    while h <= end && h <= |t|
      invariant h > 0 && |body| < max && (!services ==> body == [])
      invariant services ==> Scanning(all, body, t, uuid, h, end, max - 1 - |body|)
    {
      if services {
        ScanSteps(all, body, t, uuid, h, end, max - 1 - |body|);
      }
      if services && t[h - 1].kind.Svc? && t[h - 1].uuid == uuid && 1 + |body| + 4 <= max {
        var last := FindGroupEnd(t, h);
        body := body + (Handle16(h) + Handle16(last));
      }
      h := h + 1;
    }
    if services {
      ScanSteps(all, body, t, uuid, h, end, max - 1 - |body|);
    }
    rsp := if body == [] then ErrorRsp(req[0], start, ERR_NOT_FOUND) else [0x07] + body;
  }

  lemma ValueListIs(t: seq<Attr>, req: Bytes, max: nat)
    requires |req| >= 7 && max >= MTU_MIN
    ensures var start, end := Get16(req, 1), Get16(req, 3);
            FindByValue(t, req, max) ==
            if start == 0 || start > end then ErrorRsp(req[0], start, ERR_INVALID_HANDLE)
            else
              var found := if req[5..7] == SVC_TYPE then Scan(t, req[7..], start, end, max - 1) else [];
              if found == [] then ErrorRsp(req[0], start, ERR_NOT_FOUND) else [0x07] + found
  {
    hide Scan, ServiceEntries, Fitting, Get16, ErrorRsp, Concat;
    var start, end := Get16(req, 1), Get16(req, 3);
    ConcatNone();
    if 0 < start <= end {
      var es := Fitting(ServiceEntries(t, req[7..], start, end), max - 1);
      ScanIsPrefix(t, req[7..], start, end, max - 1);
      ConcatLength(es);
    }
  }

  // ---- The server ----

  class Server {
    var values: Values
    var mtu: nat
    var mtuMax: nat
    const prep: array<byte>
    var prepLen: nat

    ghost predicate Ok()
      reads this, prep
    {
      prep.Length == PREP_MAX && prepLen <= PREP_MAX && Valid(State())
    }

    ghost function State(): State
      requires prepLen <= prep.Length
      reads this, prep
    {
      GattServer.State(values, mtu, mtuMax, prep[..prepLen])
    }

    /** gatt_init(), and the MTU limit that the caller sets from the ACL length of the controller. */
    constructor (name: Bytes, caps: byte, mtuMax: nat)
      requires |name| < 64 && mtuMax >= MTU_MIN
      ensures Ok() && fresh(prep) && mtu == MTU_MIN && prepLen == 0 && this.mtuMax == mtuMax
    {
      values := Values(name, 0x02, 0, caps, [], [0, 0, 0]);
      mtu, this.mtuMax, prepLen := MTU_MIN, mtuMax, 0;
      prep := new byte[PREP_MAX];
    }

    /** write_value() */
    method Write(h: nat, data: Bytes) returns (error: byte, rpc: Option<Bytes>)
      requires Ok()
      modifies this`values
      ensures Ok() && (State(), error, rpc) == WriteValue(DB, old(State()), h, data)
    {
      DbIsWellFormed();
      hide WellFormed;
      rpc := None;
      var i := CccdIndex(h);
      if i.Some? {
        if |data| != 2 {
          return ERR_INVALID_LEN, None;
        }
        values := values.(cccd := values.cccd[i.value := Get16(data, 0)]);
        return 0, None;
      }
      if h == RPC_VALUE {
        return 0, Some(data);
      }
      error := if h < 1 || h > |DB| then ERR_INVALID_HANDLE else ERR_WRITE_NOT_PERM;
    }

    /** The Prepare Write branch of gatt_handle(). */
    method Prepare(req: Bytes, max: nat) returns (rsp: Bytes)
      requires Ok() && |req| >= 5 && max >= MTU_MIN
      modifies this`prepLen, prep
      ensures Ok() && Outcome(State(), rsp, None) == PrepareWrite(old(State()), req, max)
    {
      var h := Get16(req, 1);
      if h != RPC_VALUE {
        return ErrorRsp(req[0], h, ERR_WRITE_NOT_PERM);
      }
      if Get16(req, 3) != prepLen {
        return ErrorRsp(req[0], h, ERR_INVALID_OFFSET);
      }
      if prepLen + |req| - 5 > PREP_MAX {
        return ErrorRsp(req[0], h, ERR_QUEUE_FULL);
      }
      var at := prepLen;
      ghost var before := prep[..at];
      forall i | 0 <= i < |req| - 5 {
        prep[at + i] := req[5 + i];
      }
      prepLen := at + |req| - 5;
      assert prep[..prepLen] == before + req[5..];
      rsp := [0x17] + req[1..Min(|req|, max)];
    }

    /** The Execute Write branch of gatt_handle(). */
    method Execute(req: Bytes) returns (rsp: Bytes, rpc: Option<Bytes>)
      requires Ok()
      modifies this`prepLen, prep
      ensures Ok() && Outcome(State(), rsp, rpc) == ExecuteWrite(old(State()), req)
    {
      rpc := if |req| >= 2 && req[1] == 1 && prepLen != 0 then Some(prep[..prepLen]) else None;
      forall i | 0 <= i < prepLen {
        prep[i] := 0;
      }
      prepLen := 0;
      rsp := [0x19];
    }

    /** gatt_handle() */
    method Handle(req: Bytes, max: nat) returns (rsp: Bytes, rpc: Option<Bytes>)
      requires Ok() && max >= MTU_MIN
      modifies this, prep
      ensures Ok() && Outcome(State(), rsp, rpc) == GattServer.Handle(DB, old(State()), req, max)
    {
      hide ReadByType, FindInfo, FindByValue, ReadValue, ErrorRsp, PrepareWrite, ExecuteWrite, WriteValue, Get16, ValuesOk;
      rsp, rpc := [], None;
      if req == [] {
        return;
      }
      var op, n, room := req[0], |req|, if max > mtu then mtu else max;
      if op == 0x02 {
        if n < 3 {
          return ErrorRsp(op, 0, ERR_INVALID_LEN), None;
        }
        mtu := if Get16(req, 1) < mtuMax then Get16(req, 1) else mtuMax;
        if mtu < MTU_MIN {
          mtu := MTU_MIN;
        }
        rsp := [0x03] + Handle16(mtuMax);
      } else if op == 0x04 && n == 5 {
        rsp := FillInfo(DB, req, room);
      } else if op == 0x06 && n >= 7 {
        rsp := FillByValue(DB, req, room);
      } else if (op == 0x08 || op == 0x10) && n >= 7 {
        rsp := FillByType(DB, values, req, room);
      } else if (op == 0x0a || op == 0x0c) && n >= 3 {
        rsp := ReadValue(DB, values, req, room);
      } else if op == 0x12 && n >= 3 {
        var error;
        error, rpc := Write(Get16(req, 1), req[3..]);
        rsp := if error != 0 then ErrorRsp(op, Get16(req, 1), error) else [0x13];
      } else if op == 0x52 {
        if n >= 3 {
          var error;
          error, rpc := Write(Get16(req, 1), req[3..]);
        }
      } else if op == 0x16 && n >= 5 {
        rsp := Prepare(req, room);
      } else if op == 0x18 {
        rsp, rpc := Execute(req);
      } else if op in {0x04, 0x06, 0x08, 0x10, 0x0a, 0x0c, 0x12, 0x16} {
        rsp := ErrorRsp(op, 0, ERR_INVALID_LEN);
      } else if op != 0x1e && op / 0x40 % 2 != 1 {
        rsp := ErrorRsp(op, 0, ERR_NOT_SUPPORTED);
      }
    }
  }
}
