/**
 The advertisement pipeline of the Bluetooth proxy: LE Advertising Report events of the
 controller (section 7.7.65.2 of the Bluetooth Core Specification, volume 4, part E), a batch,
 and the protobuf message with the batch for Home Assistant.
 */
module AdvPipeline {
  import opened Words
  import opened Protobuf
  import Varint

  const ADV_MAX := 31
  const ADV_BATCH := 16
  const READ_MAX := 8

  /** The message buffer of flush_batch(). */
  const BUFFER := ADV_BATCH * 48

  datatype Adv = Adv(addr: nat, addrType: byte, rssi: int, data: Bytes)

  predicate AdvOk(a: Adv) {
    a.addr < 0x1_0000_0000_0000 && -128 <= a.rssi < 128 && |a.data| <= ADV_MAX
  }

  predicate AllOk(ads: seq<Adv>) {
    forall i :: 0 <= i < |ads| ==> AdvOk(ads[i])
  }

  // ---- The events ----

  /** A little-endian number. */
  function Number(b: Bytes): nat {
    if b == [] then 0 else b[0] + 0x100 * Number(b[1..])
  }

  function NumberBytes(v: nat, n: nat): (b: Bytes)
    ensures |b| == n
  {
    if n == 0 then [] else [v % 0x100] + NumberBytes(v / 0x100, n - 1)
  }

  function Power(n: nat): nat {
    if n == 0 then 1 else 0x100 * Power(n - 1)
  }

  lemma {:induction false} NumberOfBytes(v: nat, n: nat)
    requires v < Power(n)
    ensures Number(NumberBytes(v, n)) == v
  {
    if n > 0 {
      NumberOfBytes(v / 0x100, n - 1);
      assert NumberBytes(v, n)[1..] == NumberBytes(v / 0x100, n - 1);
    }
  }

  lemma {:induction false} NumberBelow(b: Bytes)
    ensures Number(b) < Power(|b|)
  {
    if b != [] {
      NumberBelow(b[1..]);
    }
  }

  lemma PowerSix()
    ensures Power(6) == 0x1_0000_0000_0000
  {
    assert Power(2) == 0x1_0000;
    assert Power(4) == 0x1_0000_0000;
  }

  function Signed(b: byte): int {
    if b < 0x80 then b as int else b as int - 0x100
  }

  function Unsigned(rssi: int): byte
    requires -128 <= rssi < 128
  {
    if rssi >= 0 then rssi else rssi + 0x100
  }

  /** A report as the controller writes it: its event type, and the advertisement. */
  datatype Report = Report(eventType: byte, adv: Adv)

  function ReportBytes(r: Report): Bytes
    requires AdvOk(r.adv)
  {
    [r.eventType, r.adv.addrType] + NumberBytes(r.adv.addr, 6) + [|r.adv.data|] + r.adv.data + [Unsigned(r.adv.rssi)]
  }

  ghost predicate ReportsOk(rs: seq<Report>) {
    forall i :: 0 <= i < |rs| ==> AdvOk(rs[i].adv)
  }

  function ReportsBytes(rs: seq<Report>): Bytes
    requires ReportsOk(rs)
  {
    if rs == [] then [] else ReportBytes(rs[0]) + ReportsBytes(rs[1..])
  }

  function Event(plen: byte, rs: seq<Report>): Bytes
    requires ReportsOk(rs) && |rs| < 0x100
  {
    [0x3e, plen, 0x02, |rs|] + ReportsBytes(rs)
  }

  function Advs(rs: seq<Report>): (ads: seq<Adv>)
    ensures |ads| == |rs|
  {
    if rs == [] then [] else [rs[0].adv] + Advs(rs[1..])
  }

  /** A whole report of legal size is at `pos`. */
  predicate ReportAt(ev: Bytes, pos: nat) {
    pos + 9 <= |ev| && ev[pos + 8] <= ADV_MAX && pos + 10 + ev[pos + 8] <= |ev|
  }

  function AdvAt(ev: Bytes, pos: nat): (a: Adv)
    requires ReportAt(ev, pos)
  {
    var n := ev[pos + 8];
    Adv(Number(ev[pos + 2..pos + 8]), ev[pos + 1], Signed(ev[pos + 9 + n]), ev[pos + 9..pos + 9 + n])
  }

  function ReportsFrom(ev: Bytes, pos: nat, n: nat): seq<Adv>
    decreases n
  {
    if n == 0 || !ReportAt(ev, pos) then []
    else [AdvAt(ev, pos)] + ReportsFrom(ev, pos + 10 + ev[pos + 8], n - 1)
  }

  function Min(a: nat, b: nat): nat {
    if a < b then a else b
  }

  function Parsed(ev: Bytes, max: nat): seq<Adv> {
    if |ev| < 4 || ev[0] != 0x3e || ev[2] != 0x02 then [] else ReportsFrom(ev, 4, Min(ev[3], max))
  }

  lemma NumberStep(six: Bytes, b: nat)
    requires b <= |six|
    ensures b < |six| ==> Number(six[b..]) == six[b] + 0x100 * Number(six[b + 1..])
    ensures b == |six| ==> Number(six[b..]) == 0
    ensures b == 0 ==> six[b..] == six
  {
    if b < |six| {
      assert six[b..][1..] == six[b + 1..];
    }
  }

  /** hci_parse_adv_reports() */
  method ParseAdvReports(ev: Bytes, max: nat) returns (out: seq<Adv>)
    ensures out == Parsed(ev, max) && |out| <= max
  {
    hide AdvAt, ReportsFrom, Min, Parsed, ReportAt, Follows;
    ParsedFrom(ev, max);
    out := [];
    if |ev| < 4 || ev[0] != 0x3e || ev[2] != 0x02 {
      return;
    }
    var n := ev[3];
    ghost var total := Min(n, max);
    ghost var left: nat, goal := total, Parsed(ev, max);
    NothingTaken(goal);
    var pos: nat, i: nat := 4, 0;
    while i < n && i < max
      invariant i == |out| && i + left == total
      invariant Follows(goal, out, ReportsFrom(ev, pos, left))
    {
      FromHere(ev, pos, left);
      AllTaken(goal, out, ReportsFrom(ev, pos, left));
      if !ReportAt(ev, pos) {
        return;
      }
      var a := ReadReportAt(ev, pos);
      var next := pos + 10 + ev[pos + 8];
      OneTaken(goal, out, a, ReportsFrom(ev, next, left - 1));
      out := out + [a];
      pos := next;
      i := i + 1;
      left := left - 1;
    }
    FromHere(ev, pos, left);
    AllTaken(goal, out, ReportsFrom(ev, pos, left));
  }

  lemma ParsedFrom(ev: Bytes, max: nat)
    ensures |ev| < 4 || ev[0] != 0x3e || ev[2] != 0x02 ==> Parsed(ev, max) == []
    ensures |ev| >= 4 && ev[0] == 0x3e && ev[2] == 0x02 ==> Parsed(ev, max) == ReportsFrom(ev, 4, Min(ev[3], max))
    ensures |ev| >= 4 ==> var m := Min(ev[3], max); m <= max && m <= ev[3] && (m == max || m == ev[3])
  {
    hide ReportsFrom;
  }

  ghost predicate Follows(all: seq<Adv>, out: seq<Adv>, rest: seq<Adv>) {
    all == out + rest
  }

  lemma NothingTaken(all: seq<Adv>)
    ensures Follows(all, [], all)
  {
  }

  lemma OneTaken(all: seq<Adv>, out: seq<Adv>, a: Adv, rest: seq<Adv>)
    requires Follows(all, out, [a] + rest)
    ensures Follows(all, out + [a], rest)
  {
    Assoc(out, [a], rest);
  }

  lemma AllTaken(all: seq<Adv>, out: seq<Adv>, rest: seq<Adv>)
    requires Follows(all, out, rest)
    ensures rest == [] ==> all == out
  {
  }

  lemma FromHere(ev: Bytes, pos: nat, n: nat)
    ensures ReportAt(ev, pos) ==> pos + 8 < |ev|
    ensures ReportsFrom(ev, pos, n) ==
            if n == 0 || !ReportAt(ev, pos) then []
            else [AdvAt(ev, pos)] + ReportsFrom(ev, pos + 10 + ev[pos + 8], n - 1)
  {
  }

  method ReadReportAt(ev: Bytes, pos: nat) returns (a: Adv)
    requires ReportAt(ev, pos)
    ensures a == AdvAt(ev, pos)
  {
    hide Number;
    var addr := ReadAddress(ev[pos + 2..pos + 8]);
    var n := ev[pos + 8];
    a := Adv(addr, ev[pos + 1], Signed(ev[pos + 9 + n]), ev[pos + 9..pos + 9 + n]);
  }

  /** The loop over the six bytes of an address, from the last one. */
  method ReadAddress(six: Bytes) returns (addr: nat)
    requires |six| == 6
    ensures addr == Number(six)
  {
    hide Number;
    NumberStep(six, 6);
    NumberStep(six, 0);
    addr := 0;
    for b := 6 downto 0
      invariant addr == Number(six[b..])
    {
      NumberStep(six, b);
      addr := addr * 0x100 + six[b];
    }
  }

  /** One report of an event is read as it was written. */
  lemma ReadReport(before: Bytes, r: Report, more: Bytes)
    requires AdvOk(r.adv)
    ensures |ReportBytes(r)| == 10 + |r.adv.data|
    ensures var ev := before + (ReportBytes(r) + more);
            ReportAt(ev, |before|) && AdvAt(ev, |before|) == r.adv && ev[|before| + 8] == |r.adv.data|
  {
    hide Number, NumberBytes;
    PowerSix();
    hide Power;
    NumberOfBytes(r.adv.addr, 6);
    var ev, p, n := before + (ReportBytes(r) + more), |before|, |r.adv.data|;
    SliceOf(before, ReportBytes(r), more);
    ReportSlices(r);
    SubSlice(ev, p, 10 + n, 2, 8);
    SubSlice(ev, p, 10 + n, 9, 9 + n);
    hide ReportBytes;
    assert ev[p + 1] == ReportBytes(r)[1] && ev[p + 8] == ReportBytes(r)[8] && ev[p + 9 + n] == ReportBytes(r)[9 + n];
  }

  lemma SliceOf(a: Bytes, b: Bytes, c: Bytes)
    ensures (a + (b + c))[|a|..|a| + |b|] == b
  {
  }

  lemma SubSlice(b: Bytes, at: nat, n: nat, i: nat, j: nat)
    requires at + n <= |b| && i <= j <= n
    ensures b[at..at + n][i..j] == b[at + i..at + j]
  {
    var x, y := b[at..at + n][i..j], b[at + i..at + j];
    forall k | 0 <= k < |x| ensures x[k] == y[k] {
    }
  }

  lemma ReportSlices(r: Report)
    requires AdvOk(r.adv)
    ensures var b, n := ReportBytes(r), |r.adv.data|;
            && |b| == 10 + n && b[2..8] == NumberBytes(r.adv.addr, 6) && b[9..9 + n] == r.adv.data
            && b[1] == r.adv.addrType && b[8] == n && b[9 + n] == Unsigned(r.adv.rssi)
  {
  }

  lemma ReadFirst(before: Bytes, r: Report, more: Bytes, n: nat)
    requires AdvOk(r.adv)
    ensures var ev := before + (ReportBytes(r) + more);
            ReportsFrom(ev, |before|, n + 1) == [r.adv] + ReportsFrom(ev, |before| + |ReportBytes(r)|, n)
  {
    hide AdvAt, ReportAt, ReportBytes;
    ReadReport(before, r, more);
  }

  lemma {:induction false} ReadReports(before: Bytes, rs: seq<Report>, n: nat)
    requires ReportsOk(rs) && n <= |rs|
    ensures ReportsFrom(before + ReportsBytes(rs), |before|, n) == Advs(rs[..n])
    decreases |rs|
  {
    hide AdvAt, ReportAt, ReportBytes, AdvOk;
    if n > 0 {
      var first, more := ReportBytes(rs[0]), ReportsBytes(rs[1..]);
      ReadFirst(before, rs[0], more, n - 1);
      hide ReportsFrom;
      Assoc(before, first, more);
      ReadReports(before + first, rs[1..], n - 1);
      assert rs[..n][1..] == rs[1..][..n - 1];
    }
  }

  /** Each well-formed event gives its reports in order, up to the limit. */
  lemma ParsedEvent(plen: byte, rs: seq<Report>, max: nat)
    requires ReportsOk(rs) && |rs| < 0x100
    ensures Parsed(Event(plen, rs), max) == Advs(rs[..Min(|rs|, max)])
  {
    hide ReportsFrom, ReportsBytes;
    ReadReports([0x3e, plen, 0x02, |rs|], rs, Min(|rs|, max));
  }

  lemma {:induction false} ParsedOk(ev: Bytes, pos: nat, n: nat)
    ensures AllOk(ReportsFrom(ev, pos, n)) && |ReportsFrom(ev, pos, n)| <= n
    decreases n
  {
    if n > 0 && ReportAt(ev, pos) {
      PowerSix();
      NumberBelow(ev[pos + 2..pos + 8]);
      ParsedOk(ev, pos + 10 + ev[pos + 8], n - 1);
    }
  }

  // ---- The message ----

  /** sint32: the sign is the lowest bit.  The shift and the exclusive or on 32 bits. */
  function Zigzag(rssi: int): nat
    requires -128 <= rssi < 128
  {
    var shifted := 2 * rssi % WORD;
    if rssi < 0 then WORD - 1 - shifted else shifted
  }

  function Unzigzag(v: nat): int {
    if v % 2 == 0 then v / 2 else -(v / 2) - 1
  }

  lemma ZigzagRoundTrip(rssi: int)
    requires -128 <= rssi < 128
    ensures Unzigzag(Zigzag(rssi)) == rssi && Zigzag(rssi) < 0x100
    ensures Zigzag(rssi) == 0 <==> rssi == 0
  {
  }

  function Fields(a: Adv): seq<Field>
    requires AdvOk(a)
  {
    NonZero(1, a.addr) + NonZero(2, Zigzag(a.rssi)) + NonZero(3, a.addrType) + NonEmpty(4, a.data)
  }

  function Entry(a: Adv): Field
    requires AdvOk(a)
  {
    Blob(1, EncodeFields(Fields(a)))
  }

  function Entries(ads: seq<Adv>): (fs: seq<Field>)
    requires AllOk(ads)
    ensures |fs| == |ads| && forall i :: 0 <= i < |ads| ==> fs[i] == Entry(ads[i])
  {
    if ads == [] then [] else [Entry(ads[0])] + Entries(ads[1..])
  }

  /** The message for a batch. */
  function Message(ads: seq<Adv>): Bytes
    requires AllOk(ads)
  {
    EncodeFields(Entries(ads))
  }

  /** What a reader makes of the fields, after those that gave `a`. */
  function Apply(a: Adv, fs: seq<Field>): Option<Adv>
    decreases |fs|
  {
    if fs == [] then Some(a)
    else
      match fs[0]
      case Int(1, v) => Apply(a.(addr := v), fs[1..])
      case Int(2, v) => Apply(a.(rssi := Unzigzag(v)), fs[1..])
      case Int(3, v) => if v < 0x100 then Apply(a.(addrType := v), fs[1..]) else None
      case Blob(4, d) => Apply(a.(data := d), fs[1..])
      case _ => None
  }

  const DEFAULT := Adv(0, 0, 0, [])

  function ReadAdvs(fs: seq<Field>): Option<seq<Adv>>
    decreases |fs|
  {
    if fs == [] then Some([])
    else
      match fs[0]
      case Blob(1, sub) =>
        (match DecodeFields(sub)
         case None => None
         case Some(inner) =>
           match Apply(DEFAULT, inner)
           case None => None
           case Some(a) =>
             match ReadAdvs(fs[1..])
             case None => None
             case Some(more) => Some([a] + more))
      case _ => None
  }

  function ReadMessage(b: Bytes): Option<seq<Adv>> {
    match DecodeFields(b)
    case None => None
    case Some(fs) => ReadAdvs(fs)
  }

  /** Up to one field is put in front. */
  lemma ApplyFirst(a: Adv, x: seq<Field>, y: seq<Field>)
    requires |x| <= 1
    ensures Apply(a, x).Some? ==> Apply(a, x + y) == Apply(Apply(a, x).value, y)
  {
    if x == [] {
      assert x + y == y;
    } else {
      assert (x + y)[0] == x[0] && (x + y)[1..] == y && x[1..] == [];
    }
  }

  lemma ApplyOne(a: Adv, b: Adv)
    requires AdvOk(b)
    ensures Apply(a, NonZero(1, b.addr)) == Some(if b.addr == 0 then a else a.(addr := b.addr))
    ensures Apply(a, NonZero(2, Zigzag(b.rssi))) == Some(if b.rssi == 0 then a else a.(rssi := b.rssi))
    ensures Apply(a, NonZero(3, b.addrType)) == Some(if b.addrType == 0 then a else a.(addrType := b.addrType))
    ensures Apply(a, NonEmpty(4, b.data)) == Some(if b.data == [] then a else a.(data := b.data))
  {
    ZigzagRoundTrip(b.rssi);
    hide Zigzag, Unzigzag;
  }

  /** The absent fields are the defaults. */
  lemma ApplyFields(a: Adv)
    requires AdvOk(a)
    ensures Apply(DEFAULT, Fields(a)) == Some(a)
  {
    hide Apply, NonZero, NonEmpty, Zigzag;
    var f1, f2, f3, f4 := NonZero(1, a.addr), NonZero(2, Zigzag(a.rssi)), NonZero(3, a.addrType), NonEmpty(4, a.data);
    AtMostOne(a);
    assert Fields(a) == f1 + (f2 + (f3 + f4));
    var d1 := DEFAULT.(addr := a.addr);
    var d2 := d1.(rssi := a.rssi);
    var d3 := d2.(addrType := a.addrType);
    ApplyOne(DEFAULT, a);
    ApplyFirst(DEFAULT, f1, f2 + (f3 + f4));
    ApplyOne(d1, a);
    ApplyFirst(d1, f2, f3 + f4);
    ApplyOne(d2, a);
    ApplyFirst(d2, f3, f4);
    ApplyOne(d3, a);
  }

  lemma AtMostOne(a: Adv)
    requires AdvOk(a)
    ensures |NonZero(1, a.addr)| <= 1 && |NonZero(2, Zigzag(a.rssi))| <= 1
    ensures |NonZero(3, a.addrType)| <= 1 && |NonEmpty(4, a.data)| <= 1
  {
    hide Zigzag;
  }

  lemma AddressGroups(v: nat)
    requires v < 0x1_0000_0000_0000
    ensures |Varint.Encode(v)| <= 7
  {
    var a := v / 0x80;
    var b := a / 0x80;
    Varint.EncodeLength(v);
    assert b < 0x4_0000_0000;
    var c := b / 0x80;
    var d := c / 0x80;
    var e := d / 0x80;
    var f := e / 0x80;
    assert f < 0x80;
    assert Varint.Groups(e) <= 2;
    assert Varint.Groups(d) <= 3;
    assert Varint.Groups(c) <= 4;
    assert Varint.Groups(b) <= 5;
    assert Varint.Groups(a) <= 6;
  }

  /** The bytes of the field with the address type; the default is not there. */
  function TypeSize(t: byte): nat {
    if t == 0 then 0 else if t < 0x80 then 2 else 3
  }

  /** The largest entry of an address type: its key and length, the address, the RSSI, the type,
      and 31 bytes of data. */
  function MaxEntry(t: byte): nat {
    46 + TypeSize(t)
  }

  /** The size of each field of an advertisement. */
  lemma FieldSizes(a: Adv)
    requires AdvOk(a)
    ensures |EncodeFields(NonZero(1, a.addr))| <= 8 && |EncodeFields(NonZero(2, Zigzag(a.rssi)))| <= 3
    ensures |EncodeFields(NonZero(3, a.addrType))| == TypeSize(a.addrType)
    ensures |EncodeFields(NonEmpty(4, a.data))| <= 33
    ensures forall f :: f in Fields(a) ==> FieldOk(f)
  {
    ZigzagRoundTrip(a.rssi);
    hide Zigzag;
    AddressGroups(a.addr);
    Varint.WordGroups(Zigzag(a.rssi));
    TwoGroups(a.addrType);
    Varint.WordGroups(|a.data|);
    KeySizes();
    hide Varint.Encode;
    EncodeOne(Int(1, a.addr));
    EncodeOne(Int(2, Zigzag(a.rssi)));
    EncodeOne(Int(3, a.addrType));
    EncodeOne(Blob(4, a.data));
    hide EncodeFields;
    assert EncodeFields([]) == [] by { EncodeNone(); }
  }

  lemma EncodeNone()
    ensures EncodeFields([]) == []
  {
  }

  lemma KeySizes()
    ensures forall num: nat, wire: nat {:trigger Key(num, wire)} :: num < 8 && wire < 8 ==> |Varint.Encode(Key(num, wire))| == 1
  {
  }

  lemma FieldsLength(a: Adv)
    requires AdvOk(a)
    ensures |EncodeFields(Fields(a))| <= 44 + TypeSize(a.addrType)
    ensures forall i :: 0 <= i < |Fields(a)| ==> FieldOk(Fields(a)[i])
  {
    FieldSizes(a);
    hide NonZero, NonEmpty, EncodeFields, FieldOk, Zigzag;
    var f1, f2, f3, f4 := NonZero(1, a.addr), NonZero(2, Zigzag(a.rssi)), NonZero(3, a.addrType), NonEmpty(4, a.data);
    EncodeAppend(f1, f2);
    EncodeAppend(f1 + f2, f3);
    EncodeAppend(f1 + f2 + f3, f4);
  }

  lemma EntryOk(a: Adv)
    requires AdvOk(a)
    ensures FieldOk(Entry(a)) && DecodeFields(EncodeFields(Fields(a))) == Some(Fields(a))
    ensures |EncodeField(Entry(a))| <= MaxEntry(a.addrType)
  {
    FieldsLength(a);
    hide Fields, FieldOk, EncodeFields;
    DecodeEncode(Fields(a));
    var n := |EncodeFields(Fields(a))|;
    Varint.WordGroups(n);
    KeySizes();
    hide Varint.Encode, DecodeFields;
    BlobOk(1, EncodeFields(Fields(a)));
  }

  lemma BlobOk(num: nat, d: Bytes)
    requires num < 8 && |d| < 0x80
    ensures FieldOk(Blob(num, d)) && |EncodeField(Blob(num, d))| == 2 + |d|
  {
    Varint.WordGroups(|d|);
    KeySizes();
    hide Varint.Encode;
  }

  /** One advertisement in front of those that are read. */
  lemma ReadOne(fs: seq<Field>, a: Adv, later: seq<Adv>)
    requires AdvOk(a) && fs != [] && fs[0] == Entry(a) && ReadAdvs(fs[1..]) == Some(later)
    ensures ReadAdvs(fs) == Some([a] + later)
  {
    hide Fields, DecodeFields, Apply, FieldOk, EncodeField, EncodeFields;
    EntryOk(a);
    ApplyFields(a);
  }

  lemma {:induction false} ReadEntries(ads: seq<Adv>)
    requires AllOk(ads)
    ensures ReadAdvs(Entries(ads)) == Some(ads)
    decreases |ads|
  {
    hide Entry, AdvOk;
    if ads != [] {
      ReadEntries(ads[1..]);
      assert Entries(ads)[1..] == Entries(ads[1..]);
      ReadOne(Entries(ads), ads[0], ads[1..]);
      assert ads == [ads[0]] + ads[1..];
    }
  }

  /** A reader of the message gets the batch back, with the fields that were not sent. */
  lemma MessageRoundTrip(ads: seq<Adv>)
    requires AllOk(ads)
    ensures ReadMessage(Message(ads)) == Some(ads)
  {
    hide Entry, FieldOk, ReadAdvs, EncodeFields, DecodeFields;
    forall i | 0 <= i < |ads| ensures FieldOk(Entries(ads)[i]) {
      EntryOk(ads[i]);
    }
    DecodeEncode(Entries(ads));
    ReadEntries(ads);
  }

  predicate Largest(a: Adv) {
    a.addr >= 0x400_0000_0000 && (a.rssi >= 64 || a.rssi < -64) && |a.data| == ADV_MAX
  }

  /** Seven groups of seven bits. */
  lemma LargeAddress(v: nat)
    requires 0x400_0000_0000 <= v < 0x1_0000_0000_0000
    ensures |Varint.Encode(v)| == 7
  {
    var a := v / 0x80;
    var b := a / 0x80;
    var c := b / 0x80;
    Varint.EncodeLength(v);
    assert c >= 0x20_0000;
    var d := c / 0x80;
    assert d >= 0x4000;
    assert Varint.Groups(d) >= 3;
    assert Varint.Groups(c) >= 4;
    assert Varint.Groups(b) >= 5;
    assert Varint.Groups(a) >= 6;
    AddressGroups(v);
  }

  /** An advertisement that takes all of its room. */
  lemma LargestEntry(a: Adv)
    requires AdvOk(a) && Largest(a)
    ensures |EncodeField(Entry(a))| == MaxEntry(a.addrType)
  {
    LargestFields(a);
    hide NonZero, NonEmpty, EncodeFields, FieldOk, Zigzag;
    var f1, f2, f3, f4 := NonZero(1, a.addr), NonZero(2, Zigzag(a.rssi)), NonZero(3, a.addrType), NonEmpty(4, a.data);
    EncodeAppend(f1, f2);
    EncodeAppend(f1 + f2, f3);
    EncodeAppend(f1 + f2 + f3, f4);
    BlobOk(1, EncodeFields(Fields(a)));
  }

  lemma LargestFields(a: Adv)
    requires AdvOk(a) && Largest(a)
    ensures |EncodeFields(NonZero(1, a.addr))| == 8 && |EncodeFields(NonZero(2, Zigzag(a.rssi)))| == 3
    ensures |EncodeFields(NonZero(3, a.addrType))| == TypeSize(a.addrType)
    ensures |EncodeFields(NonEmpty(4, a.data))| == 33
  {
    LargeAddress(a.addr);
    ZigzagRoundTrip(a.rssi);
    assert Zigzag(a.rssi) >= 0x80;
    hide Zigzag;
    TwoGroups(Zigzag(a.rssi));
    TwoGroups(a.addrType);
    TwoGroups(|a.data|);
    KeySizes();
    hide Varint.Encode;
    EncodeOne(Int(1, a.addr));
    EncodeOne(Int(2, Zigzag(a.rssi)));
    EncodeOne(Int(3, a.addrType));
    EncodeOne(Blob(4, a.data));
    hide EncodeFields;
  }

  lemma TwoGroups(v: nat)
    requires v < 0x100
    ensures |Varint.Encode(v)| == if v < 0x80 then 1 else 2
  {
  }

  /** The address types of a batch. */
  function Types(ads: seq<Adv>): (ts: seq<byte>)
    ensures |ts| == |ads|
  {
    if ads == [] then [] else [ads[0].addrType] + Types(ads[1..])
  }

  /** The largest message of a batch with these address types. */
  function MaxMessage(ts: seq<byte>): nat {
    if ts == [] then 0 else MaxEntry(ts[0]) + MaxMessage(ts[1..])
  }

  /** A message is not longer than its address types allow. */
  lemma {:induction false} MessageSize(ads: seq<Adv>)
    requires AllOk(ads)
    ensures |Message(ads)| <= MaxMessage(Types(ads))
    decreases |ads|
  {
    hide Entry;
    if ads != [] {
      EntryOk(ads[0]);
      MessageSize(ads[1..]);
      assert Entries(ads)[1..] == Entries(ads[1..]);
      assert Types(ads)[1..] == Types(ads[1..]);
    }
  }

  lemma {:induction false} MaxMessageBounds(ts: seq<byte>)
    ensures 46 * |ts| <= MaxMessage(ts) <= 49 * |ts|
    ensures (forall t :: t in ts ==> t < 0x80) ==> MaxMessage(ts) <= 48 * |ts|
    ensures (forall t :: t in ts ==> t >= 0x80) ==> MaxMessage(ts) == 49 * |ts|
  {
    if ts != [] {
      MaxMessageBounds(ts[1..]);
      assert ts[0] in ts && forall t :: t in ts[1..] ==> t in ts;
    }
  }

  /** With address types below 128, `n` advertisements take at most 48 * n bytes; with any types,
      fewer than 16 fit in the buffer. */
  lemma MessageFits(ads: seq<Adv>)
    requires AllOk(ads)
    ensures (forall t :: t in Types(ads) ==> t < 0x80) ==> |Message(ads)| <= 48 * |ads|
    ensures |ads| < ADV_BATCH ==> |Message(ads)| <= BUFFER
  {
    hide Message, Types, MaxMessage;
    MessageSize(ads);
    MaxMessageBounds(Types(ads));
  }

  /** The batch of the largest advertisements with some address types. */
  function LargestBatch(ts: seq<byte>): (ads: seq<Adv>)
    ensures |ads| == |ts| && AllOk(ads)
    ensures forall i :: 0 <= i < |ads| ==> Largest(ads[i]) && ads[i].addrType == ts[i]
  {
    if ts == [] then []
    else [Adv(0x8000_0000_0000, ts[0], -128, seq(ADV_MAX, _ => 0))] + LargestBatch(ts[1..])
  }

  lemma MessageFirst(ads: seq<Adv>)
    requires AllOk(ads) && ads != []
    ensures Message(ads) == EncodeField(Entry(ads[0])) + Message(ads[1..])
  {
    hide Entry, EncodeField;
    assert Entries(ads)[1..] == Entries(ads[1..]);
  }

  lemma {:induction false} LargestMessage(ts: seq<byte>)
    ensures Types(LargestBatch(ts)) == ts && |Message(LargestBatch(ts))| == MaxMessage(ts)
    decreases |ts|
  {
    hide Entry, Largest, MaxEntry, EncodeField, AdvOk;
    if ts != [] {
      var ads := LargestBatch(ts);
      LargestMessage(ts[1..]);
      assert ads[1..] == LargestBatch(ts[1..]);
      assert Largest(ads[0]) && AdvOk(ads[0]);
      LargestEntry(ads[0]);
      MessageFirst(ads);
    }
  }

  ghost predicate AlwaysFits(ts: seq<byte>) {
    forall ads :: AllOk(ads) && Types(ads) == ts ==> |Message(ads)| <= BUFFER
  }

  /** Exactly when the buffer is large enough: every batch with these address types fits in it if
      and only if the largest one does. */
  lemma FitsExactly(ts: seq<byte>)
    ensures AlwaysFits(ts) <==> MaxMessage(ts) <= BUFFER
  {
    hide Message, Types, MaxMessage, AllOk;
    forall ads | AllOk(ads) && Types(ads) == ts ensures |Message(ads)| <= MaxMessage(ts) {
      MessageSize(ads);
    }
    LargestMessage(ts);
  }

  /** A batch that does not fit: 16 of the largest advertisements with the address type 128 give
      784 bytes for a buffer of 768. */
  lemma LongMessage()
    ensures var ads := LargestBatch(seq(ADV_BATCH, _ => 0x80));
            && AllOk(ads) && |ads| == ADV_BATCH && |Message(ads)| == 784 > BUFFER
            && forall i :: 0 <= i < ADV_BATCH ==> ads[i].addrType == 0x80
  {
    hide Message, MaxMessage;
    var ts: seq<byte> := seq(ADV_BATCH, _ => 0x80);
    LargestMessage(ts);
    MaxMessageBounds(ts);
  }

  /** The end to end result: the message for the reports of a well-formed event. */
  lemma EventRoundTrip(plen: byte, rs: seq<Report>)
    requires ReportsOk(rs) && |rs| < 0x100
    ensures var ads := Parsed(Event(plen, rs), READ_MAX);
            AllOk(ads) && ReadMessage(Message(ads)) == Some(Advs(rs[..Min(|rs|, READ_MAX)]))
  {
    ParsedEvent(plen, rs, READ_MAX);
    ParsedOk(Event(plen, rs), 4, Min(|rs|, READ_MAX));
    hide ReportsFrom, Advs, Message, ReadMessage, ReportsBytes;
    MessageRoundTrip(Parsed(Event(plen, rs), READ_MAX));
  }

  /** api_adv_batch() */
  method AdvBatch(ads: seq<Adv>) returns (p: Bytes)
    requires AllOk(ads)
    ensures p == Message(ads)
  {
    hide NonZero, NonEmpty, EncodeField, EncodeFields, Zigzag;
    p := [];
    assert p == Message([]) by { EncodeNone(); }
    assert ads[..0] == [];
    for i := 0 to |ads|
      invariant p == Message(ads[..i])
    {
      var a := ads[i];
      var f1 := PbUint(1, a.addr);
      var f2 := PbUint(2, Zigzag(a.rssi));
      var f3 := PbUint(3, a.addrType);
      var f4 := PbBytes(4, a.data);
      SubMessage(a);
      var sub := f1 + f2 + f3 + f4;
      var entry := PbBlob(1, sub);
      MessageGrows(ads[..i], a);
      assert ads[..i + 1] == ads[..i] + [a];
      p := p + entry;
    }
    assert ads[..|ads|] == ads;
  }

  lemma SubMessage(a: Adv)
    requires AdvOk(a)
    ensures EncodeFields(Fields(a)) ==
            EncodeFields(NonZero(1, a.addr)) + EncodeFields(NonZero(2, Zigzag(a.rssi)))
            + EncodeFields(NonZero(3, a.addrType)) + EncodeFields(NonEmpty(4, a.data))
  {
    hide NonZero, NonEmpty, EncodeFields, Zigzag;
    var f1, f2, f3, f4 := NonZero(1, a.addr), NonZero(2, Zigzag(a.rssi)), NonZero(3, a.addrType), NonEmpty(4, a.data);
    EncodeAppend(f1, f2);
    EncodeAppend(f1 + f2, f3);
    EncodeAppend(f1 + f2 + f3, f4);
  }

  lemma MessageGrows(ads: seq<Adv>, a: Adv)
    requires AllOk(ads) && AdvOk(a)
    ensures AllOk(ads + [a]) && Message(ads + [a]) == Message(ads) + EncodeField(Entry(a))
  {
    hide Entry, EncodeField, EncodeFields;
    assert Entries(ads + [a]) == Entries(ads) + [Entry(a)];
    EncodeAppend(Entries(ads), [Entry(a)]);
    EncodeOne(Entry(a));
  }

  // ---- The proxy ----

  class Proxy {
    var scanning: bool
    var batch: seq<Adv>

    ghost predicate Valid()
      reads this
    {
      |batch| <= ADV_BATCH && AllOk(batch)
    }

    constructor (scanning: bool)
      ensures Valid() && batch == [] && this.scanning == scanning
    {
      this.scanning, batch := scanning, [];
    }

    /** The reports of le_meta(): what a full batch has no room for is lost. */
    method LeMeta(ev: Bytes)
      requires Valid()
      modifies this`batch
      ensures Valid()
      ensures var ads := if scanning then Parsed(ev, READ_MAX) else [];
              batch == (old(batch) + ads)[..Min(|old(batch)| + |ads|, ADV_BATCH)]
    {
      hide ReportsFrom, AdvOk;
      assert batch + [] == batch;
      if |ev| < 3 || ev[2] != 0x02 || !scanning {
        return;
      }
      var ads := ParseAdvReports(ev, READ_MAX);
      if |ev| >= 4 {
        ParsedOk(ev, 4, Min(ev[3], READ_MAX));
      }
      hide Parsed;
      var i := 0;
      ghost var all := batch + ads;
      while i < |ads| && |batch| < ADV_BATCH
        invariant i <= |ads| && |batch| == |old(batch)| + i <= ADV_BATCH && batch == all[..|batch|] && Valid()
      {
        batch := batch + [ads[i]];
        i := i + 1;
      }
    }

    /** flush_batch(): the message that each subscriber gets. */
    method FlushBatch() returns (message: Option<Bytes>)
      requires Valid()
      modifies this`batch
      ensures Valid() && batch == [] && (message.None? <==> old(batch) == [])
      ensures message.Some? ==> ReadMessage(message.value) == Some(old(batch))
      ensures message.Some? && (|old(batch)| < ADV_BATCH || MaxMessage(Types(old(batch))) <= BUFFER) ==>
                |message.value| <= BUFFER
    {
      hide Message, ReadMessage, AdvOk, MaxMessage, Types;
      if batch == [] {
        return None;
      }
      MessageRoundTrip(batch);
      MessageSize(batch);
      MessageFits(batch);
      var p := AdvBatch(batch);
      batch := [];
      message := Some(p);
    }
  }
}
