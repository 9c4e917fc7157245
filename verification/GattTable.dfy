/**
 The attribute table of the ATT server, and which attributes an answer takes: sections 3.4.3 and
 3.4.4 of the Bluetooth Core Specification, volume 3, part F.  The attribute with handle h is
 `t[h - 1]`.
 */
module GattTable {
  import opened Words

  datatype Kind = Svc | Decl | Value | Cccd

  datatype Attr = Attr(kind: Kind, props: byte, uuid: Bytes)

  const ERR_INVALID_HANDLE: byte := 0x01
  const ERR_READ_NOT_PERM: byte := 0x02

  const SVC_TYPE: Bytes := [0x00, 0x28]
  const DECL_TYPE: Bytes := [0x03, 0x28]
  const CCCD_TYPE: Bytes := [0x02, 0x29]

  const STATE_VALUE := 8
  const ERROR_VALUE := 11
  const RPC_VALUE := 14
  const RESULT_VALUE := 16

  /** What the server has to show: the values that can change. */
  datatype Values = Values(name: Bytes, state: byte, error: byte, caps: byte, result: Bytes, cccd: seq<u16>)

  predicate ValuesOk(v: Values) {
    |v.name| < 64 && |v.result| <= 64 && |v.cccd| == 3
  }

  datatype Read = Data(bytes: Bytes) | Denied(error: byte)

  function CccdIndex(h: nat): Option<nat> {
    if h == 9 then Some(0) else if h == 12 then Some(1) else if h == 17 then Some(2) else None
  }

  function AttrType(a: Attr): Bytes {
    match a.kind
    case Svc => SVC_TYPE
    case Decl => DECL_TYPE
    case Cccd => CCCD_TYPE
    case Value => a.uuid
  }

  function Handle16(h: nat): (b: Bytes)
    ensures |b| == 2
  {
    [h % 0x100, h / 0x100 % 0x100]
  }

  function Get16(b: Bytes, at: nat): u16
    requires at + 2 <= |b|
  {
    FromLe16(b[at], b[at + 1])
  }

  lemma Get16OfHandle(b: Bytes, at: nat, h: nat)
    requires at + 2 <= |b| && h < 0x1_0000 && b[at] == h % 0x100 && b[at + 1] == h / 0x100 % 0x100
    ensures Get16(b, at) == h
  {
  }

  /** attr_value() */
  function AttrValue(t: seq<Attr>, v: Values, h: nat): Read
    requires ValuesOk(v)
  {
    if h < 1 || h > |t| then Denied(ERR_INVALID_HANDLE)
    else
      var a := t[h - 1];
      match a.kind
      case Svc => Data(a.uuid)
      case Decl => Data([a.props] + Handle16(h + 1) + a.uuid)
      case Cccd => if CccdIndex(h).Some? then Data(Le16(v.cccd[CccdIndex(h).value])) else Denied(ERR_READ_NOT_PERM)
      case Value =>
        if h == 3 then Data(v.name)
        else if h == 5 then Data([0, 0])
        else if h == STATE_VALUE then Data([v.state])
        else if h == ERROR_VALUE then Data([v.error])
        else if h == RESULT_VALUE then Data(v.result)
        else if h == 19 then Data([v.caps])
        else Denied(ERR_READ_NOT_PERM)
  }

  /** The last handle of the service at `h`: the next service begins after it. */
  function GroupEnd(t: seq<Attr>, h: nat): (e: nat)
    ensures h <= e && (h <= |t| ==> e <= |t|)
    ensures forall k :: h <= k < e && k < |t| ==> !t[k].kind.Svc?
    ensures e < |t| ==> t[e].kind.Svc?
    decreases |t| - h
  {
    if h + 1 <= |t| && !t[h].kind.Svc? then GroupEnd(t, h + 1) else h
  }

  /** group_end() */
  method FindGroupEnd(t: seq<Attr>, h: nat) returns (end: nat)
    requires 1 <= h <= |t|
    ensures end == GroupEnd(t, h)
  {
    var e := h + 1;
    while e <= |t| && !t[e - 1].kind.Svc?
      invariant h < e <= |t| + 1 && GroupEnd(t, h) == GroupEnd(t, e - 1)
    {
      e := e + 1;
    }
    end := e - 1;
  }

  // ---- The entries of an answer ----

  /** What an attribute gives to an answer. */
  datatype Candidate = Entry(bytes: Bytes) | Refused(handle: nat, error: byte)

  function EntryOf(t: seq<Attr>, v: Values, group: bool, h: nat): Candidate
    requires ValuesOk(v)
  {
    match AttrValue(t, v, h)
    case Denied(e) => Refused(h, e)
    case Data(d) => Entry(Handle16(h) + (if group then Handle16(GroupEnd(t, h)) else []) + d)
  }

  /** The attributes of a type from `h` to `end`. */
  function Candidates(t: seq<Attr>, v: Values, group: bool, want: Bytes, h: nat, end: nat): seq<Candidate>
    requires ValuesOk(v) && h > 0
    decreases |t| + 1 - h
  {
    if h > end || h > |t| then []
    else
      var later := Candidates(t, v, group, want, h + 1, end);
      if AttrType(t[h - 1]) == want then [EntryOf(t, v, group, h)] + later else later
  }

  /** Each attribute from `h` to `end`, with its type. */
  function InfoEntries(t: seq<Attr>, h: nat, end: nat): seq<Candidate>
    requires h > 0
    decreases |t| + 1 - h
  {
    if h > end || h > |t| then []
    else [Entry(Handle16(h) + AttrType(t[h - 1]))] + InfoEntries(t, h + 1, end)
  }

  /** The entries of one length that fit, from the first one; `entry` is the length, 0 before
      the first. */
  function Collect(cs: seq<Candidate>, room: nat, entry: nat): (r: seq<Bytes>)
    ensures |Concat(r)| <= room
  {
    if cs == [] || cs[0].Refused? || (entry != 0 && |cs[0].bytes| != entry) || |cs[0].bytes| > room then []
    else
      var first := cs[0].bytes;
      var later := Collect(cs[1..], room - |first|, |first|);
      if |first| == 0 then [] else [first] + later
  }

  /** They are the first candidates, and have one length. */
  lemma {:induction false} Collected(cs: seq<Candidate>, room: nat, entry: nat)
    ensures var r := Collect(cs, room, entry);
            && |r| <= |cs|
            && (forall i :: 0 <= i < |r| ==> cs[i] == Entry(r[i]))
            && (forall i :: 0 <= i < |r| ==> |r[i]| == if entry == 0 then |r[0]| else entry)
    decreases |cs|
  {
    if Collect(cs, room, entry) != [] {
      var first := cs[0].bytes;
      Collected(cs[1..], room - |first|, |first|);
    }
  }

  /** The first entry is taken if it fits. */
  lemma CollectTakes(cs: seq<Candidate>, room: nat, entry: nat)
    requires cs != [] && cs[0].Entry? && 0 < |cs[0].bytes| <= room && (entry == 0 || |cs[0].bytes| == entry)
    ensures var b := cs[0].bytes; Collect(cs, room, entry) == [b] + Collect(cs[1..], room - |b|, |b|)
  {
    hide Concat;
  }

  // ---- The table ----

  function Uuid16(x: u16): Bytes {
    Le16(x)
  }

  /** The UUIDs of the Improv service and its values differ in one byte, which goes out first. */
  function ImprovUuid(x: byte): Bytes {
    [x, 0x80, 0x26, 0x78, 0x74, 0x27, 0x63, 0x46, 0x72, 0x22, 0x28, 0x62, 0x68, 0x77, 0x46, 0x00]
  }

  const PROP_READ: byte := 0x02
  const PROP_WNR: byte := 0x04
  const PROP_WRITE: byte := 0x08
  const PROP_NOTIFY: byte := 0x10

  const NOTIFIED: byte := PROP_READ + PROP_NOTIFY
  const WRITTEN: byte := PROP_WRITE + PROP_WNR

  /** The GAP service: the device name and the appearance. */
  const GAP: seq<Attr> := [
    Attr(Svc, 0, Uuid16(0x1800)),
    Attr(Decl, PROP_READ, Uuid16(0x2a00)), Attr(Value, PROP_READ, Uuid16(0x2a00)),
    Attr(Decl, PROP_READ, Uuid16(0x2a01)), Attr(Value, PROP_READ, Uuid16(0x2a01))]

  const STATE_ATTRS: seq<Attr> := [
    Attr(Svc, 0, ImprovUuid(0x00)),
    Attr(Decl, NOTIFIED, ImprovUuid(0x01)), Attr(Value, NOTIFIED, ImprovUuid(0x01)), Attr(Cccd, 0, [])]

  const ERROR_ATTRS: seq<Attr> := [
    Attr(Decl, NOTIFIED, ImprovUuid(0x02)), Attr(Value, NOTIFIED, ImprovUuid(0x02)), Attr(Cccd, 0, [])]

  const RPC_ATTRS: seq<Attr> := [
    Attr(Decl, WRITTEN, ImprovUuid(0x03)), Attr(Value, WRITTEN, ImprovUuid(0x03)),
    Attr(Decl, NOTIFIED, ImprovUuid(0x04)), Attr(Value, NOTIFIED, ImprovUuid(0x04)), Attr(Cccd, 0, [])]

  const CAPS_ATTRS: seq<Attr> := [Attr(Decl, PROP_READ, ImprovUuid(0x05)), Attr(Value, PROP_READ, ImprovUuid(0x05))]

  const DB: seq<Attr> := GAP + STATE_ATTRS + ERROR_ATTRS + RPC_ATTRS + CAPS_ATTRS

  /** A UUID of 2 or 16 bytes, and no value with the type of a declaration. */
  predicate AttrOk(a: Attr) {
    && (!a.kind.Cccd? ==> |a.uuid| == 2 || |a.uuid| == 16)
    && (a.kind.Value? ==> a.uuid != SVC_TYPE && a.uuid != DECL_TYPE && a.uuid != CCCD_TYPE)
  }

  predicate AllAttrsOk(t: seq<Attr>) {
    forall i :: 0 <= i < |t| ==> AttrOk(t[i])
  }

  predicate WellFormed(t: seq<Attr>) {
    |t| < 0xffff && AllAttrsOk(t)
  }

  lemma DbIsWellFormed()
    ensures WellFormed(DB) && |DB| == 19
  {
    assert AllAttrsOk(GAP);
    assert AllAttrsOk(STATE_ATTRS);
    assert AllAttrsOk(ERROR_ATTRS);
    assert AllAttrsOk(RPC_ATTRS);
    assert AllAttrsOk(CAPS_ATTRS);
    hide AttrOk;
  }

  /** The values that the server shows; the other value is the RPC command. */
  predicate IsShown(h: nat) {
    h == 3 || h == 5 || h == STATE_VALUE || h == ERROR_VALUE || h == RESULT_VALUE || h == 19
  }

  lemma AttrAt(h: nat)
    requires 1 <= h <= 19
    ensures |DB| == 19
    ensures DB[h - 1] == if h <= 5 then GAP[h - 1] else if h <= 9 then STATE_ATTRS[h - 6]
                         else if h <= 12 then ERROR_ATTRS[h - 10] else if h <= 17 then RPC_ATTRS[h - 13]
                         else CAPS_ATTRS[h - 18]
  {
  }

  /** The handles that the server knows by number are those of its table: the descriptors, the
      values that it shows, and the RPC command. */
  lemma DbHandles(h: nat)
    requires 1 <= h <= 19
    ensures DB[h - 1].kind.Cccd? <==> CccdIndex(h).Some?
    ensures DB[h - 1].kind.Value? <==> IsShown(h) || h == RPC_VALUE
    ensures DB[h - 1].kind.Value? ==> (DB[h - 1].props == WRITTEN <==> h == RPC_VALUE)
  {
    AttrAt(h);
  }

  /** Each attribute of the table can be read, but for the RPC command. */
  lemma DbReads(v: Values, h: nat)
    requires ValuesOk(v)
    ensures |DB| == 19
    ensures AttrValue(DB, v, h) == Denied(ERR_INVALID_HANDLE) <==> h < 1 || h > 19
    ensures AttrValue(DB, v, h) == Denied(ERR_READ_NOT_PERM) <==> h == RPC_VALUE
    ensures AttrValue(DB, v, h).Denied? ==> h < 1 || h > 19 || h == RPC_VALUE
    ensures AttrValue(DB, v, h).Data? ==> |AttrValue(DB, v, h).bytes| <= 64
  {
    DbIsWellFormed();
    if 1 <= h <= 19 {
      DbHandles(h);
      assert AttrOk(DB[h - 1]);
    }
  }

  /** The table is one of characteristics: each declaration stands before its value and has the same
      properties and UUID, and a value has a descriptor after it exactly if it can be notified. */
  lemma DbShape(h: nat)
    requires 1 <= h <= 19
    ensures |DB| == 19
    ensures DB[h - 1].kind.Decl? ==>
              h < 19 && DB[h].kind.Value? && DB[h].uuid == DB[h - 1].uuid && DB[h].props == DB[h - 1].props
    ensures DB[h - 1].kind.Value? ==> h > 1 && DB[h - 2].kind.Decl?
    ensures h < 19 && DB[h].kind.Cccd? <==> DB[h - 1].kind.Value? && DB[h - 1].props / PROP_NOTIFY % 2 == 1
    ensures DB[h - 1].kind.Svc? <==> h == 1 || h == 6
  {
    AttrAt(h);
    if h > 1 {
      AttrAt(h - 1);
    }
    if h < 19 {
      AttrAt(h + 1);
    }
  }

  /** The UUID of the Improv service and of its values, as four words from the last one:
      00467768-6228-2272-4663-2774782680XX. */
  lemma ImprovUuidIs(x: byte)
    ensures var u := ImprovUuid(x);
            && |u| == 16 && FromLe32(u[12..16]) == 0x0046_7768 && FromLe32(u[8..12]) == 0x6228_2272
            && FromLe32(u[4..8]) == 0x4663_2774 && FromLe32(u[0..4]) == 0x7826_8000 + x as int
  {
  }
}
