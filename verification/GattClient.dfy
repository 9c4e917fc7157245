/**
 A client of the ATT server: it finds all services, characteristics and handles with repeated
 requests (sections 3.4.3.1, 3.4.3.3, 3.4.4.1 and 3.4.4.9 of the Bluetooth Core Specification, volume 3,
 part F), and it reads long values in pieces (sections 3.4.4.3 to 3.4.4.6).  The client knows
 only the bytes of the responses.
 */
module GattClient {
  import opened Words
  import opened GattTable
  import opened GattServer

  /** Read By Group Type, Read By Type, Find Information, and Find By Type Value for a UUID. */
  datatype Search = Groups | Declarations | Information | Service(uuid: Bytes)

  /** The entries are services with their group ends. */
  predicate Grouped(k: Search) {
    k.Groups? || k.Service?
  }

  // ---- What there is to find ----

  predicate Matches(k: Search, a: Attr) {
    match k
    case Groups => a.kind.Svc?
    case Declarations => a.kind.Decl?
    case Information => true
    case Service(uuid) => a.kind.Svc? && a.uuid == uuid
  }

  function EntryBytes(k: Search, t: seq<Attr>, h: nat): Bytes
    requires 1 <= h <= |t|
  {
    var a := t[h - 1];
    match k
    case Groups => Handle16(h) + Handle16(GroupEnd(t, h)) + a.uuid
    case Declarations => Handle16(h) + ([a.props] + Handle16(h + 1) + a.uuid)
    case Information => Handle16(h) + AttrType(a)
    case Service(_) => Handle16(h) + Handle16(GroupEnd(t, h))
  }

  /** The entries of all the matching attributes from `h`, in order. */
  function Found(k: Search, t: seq<Attr>, h: nat): seq<Bytes>
    requires h > 0
    decreases |t| + 1 - h
  {
    if h > |t| then []
    else if Matches(k, t[h - 1]) then [EntryBytes(k, t, h)] + Found(k, t, h + 1)
    else Found(k, t, h + 1)
  }

  lemma EntrySize(k: Search, t: seq<Attr>, h: nat)
    requires WellFormed(t) && 1 <= h <= |t| && Matches(k, t[h - 1])
    ensures |EntryBytes(k, t, h)| == 2 + match k
            case Groups => 2 + |t[h - 1].uuid|
            case Declarations => 3 + |t[h - 1].uuid|
            case Information => |AttrType(t[h - 1])|
            case Service(_) => 2
    ensures 4 <= |EntryBytes(k, t, h)| <= MTU_MIN - 2
    ensures k.Information? ==> |EntryBytes(k, t, h)| == 4 || |EntryBytes(k, t, h)| == 18
  {
    assert AttrOk(t[h - 1]);
    hide GroupEnd;
  }

  // ---- The client ----

  function Request(k: Search, start: nat): Bytes {
    match k
    case Groups => [0x10] + Handle16(start) + [0xff, 0xff] + SVC_TYPE
    case Declarations => [0x08] + Handle16(start) + [0xff, 0xff] + DECL_TYPE
    case Information => [0x04] + Handle16(start) + [0xff, 0xff]
    case Service(uuid) => [0x06] + Handle16(start) + [0xff, 0xff] + SVC_TYPE + uuid
  }

  /** The equal pieces of a list. */
  function Pieces(b: Bytes, n: nat): (r: seq<Bytes>)
    ensures forall i :: 0 <= i < |r| ==> |r[i]| == n
    decreases |b|
  {
    if n == 0 || |b| < n then [] else [b[..n]] + Pieces(b[n..], n)
  }

  /** The entries of a response; none when it is an error. */
  function Parse(k: Search, rsp: Bytes): (r: seq<Bytes>)
    ensures forall i :: 0 <= i < |r| ==> |r[i]| >= 4
  {
    if |rsp| < 2 || rsp[0] != Request(k, 0)[0] + 1 then []
    else if k.Service? then Pieces(rsp[1..], 4)
    else
      var n := if !k.Information? then rsp[1] else if rsp[1] == 1 then 4 else 18;
      if n < 4 then [] else Pieces(rsp[2..], n)
  }

  /** The handle after an entry: after the last one of its group, for a service. */
  function After(k: Search, e: Bytes): nat
    requires |e| >= 4
  {
    (if Grouped(k) then Get16(e, 2) else Get16(e, 0)) + 1
  }

  /** Requests from `start` until an error, each from the handle after the last entry. */
  function Discover(k: Search, t: seq<Attr>, s: State, start: nat, max: nat): seq<Bytes>
    requires Valid(s) && max >= MTU_MIN
    decreases 0x1_0000 - start
  {
    var es := Parse(k, Handle(t, s, Request(k, start), max).rsp);
    if es == [] then []
    else
      var next := After(k, es[|es| - 1]);
      if next <= start || next > 0xffff then es else es + Discover(k, t, s, next, max)
  }

  // ---- The response ----

  /** The candidates of the server are the entries to find. */
  lemma {:induction false} CandidatesAre(k: Search, t: seq<Attr>, v: Values, h: nat)
    requires WellFormed(t) && ValuesOk(v) && h > 0 && !k.Service?
    ensures var cs := if k.Information? then InfoEntries(t, h, 0xffff)
                      else Candidates(t, v, k.Groups?, if k.Groups? then SVC_TYPE else DECL_TYPE, h, 0xffff);
            |cs| == |Found(k, t, h)| && forall i :: 0 <= i < |cs| ==> cs[i] == Entry(Found(k, t, h)[i])
    decreases |t| + 1 - h
  {
    hide EntryOf, EntryBytes, GroupEnd, AttrOk, WellFormed, ValuesOk, AttrType;
    if h <= |t| {
      CandidatesAre(k, t, v, h + 1);
      TypeMatches(t, h);
      OneCandidate(k, t, v, h);
      FoundFrom(k, t, h);
    }
  }

  lemma TypeMatches(t: seq<Attr>, h: nat)
    requires WellFormed(t) && 1 <= h <= |t|
    ensures h < 0xffff && (AttrType(t[h - 1]) == SVC_TYPE <==> t[h - 1].kind.Svc?)
    ensures AttrType(t[h - 1]) == DECL_TYPE <==> t[h - 1].kind.Decl?
  {
    assert AttrOk(t[h - 1]);
  }

  lemma FoundFrom(k: Search, t: seq<Attr>, h: nat)
    requires 1 <= h <= |t| && !k.Service?
    ensures var a, later := t[h - 1], Found(k, t, h + 1);
            Found(k, t, h) == if (k.Groups? && !a.kind.Svc?) || (k.Declarations? && !a.kind.Decl?) then later
                              else [EntryBytes(k, t, h)] + later
  {
    hide EntryBytes;
  }

  lemma OneCandidate(k: Search, t: seq<Attr>, v: Values, h: nat)
    requires ValuesOk(v) && 1 <= h <= |t|
    ensures k.Groups? && t[h - 1].kind.Svc? ==> EntryOf(t, v, true, h) == Entry(EntryBytes(k, t, h))
    ensures k.Information? ==> EntryBytes(k, t, h) == Handle16(h) + AttrType(t[h - 1])
    ensures k.Declarations? && t[h - 1].kind.Decl? ==> EntryOf(t, v, false, h) == Entry(EntryBytes(k, t, h))
  {
    hide GroupEnd, Handle16, AttrType;
    assert Handle16(h) + [] == Handle16(h);
  }

  lemma {:induction false} FoundSizes(k: Search, t: seq<Attr>, h: nat)
    requires WellFormed(t) && h > 0
    ensures forall i :: 0 <= i < |Found(k, t, h)| ==>
              4 <= |Found(k, t, h)[i]| <= MTU_MIN - 2
              && (k.Information? ==> |Found(k, t, h)[i]| == 4 || |Found(k, t, h)[i]| == 18)
    decreases |t| + 1 - h
  {
    hide EntryBytes, WellFormed;
    if h <= |t| {
      if Matches(k, t[h - 1]) {
        EntrySize(k, t, h);
      }
      FoundSizes(k, t, h + 1);
    }
  }

  lemma {:induction false} PiecesOfConcat(es: seq<Bytes>, n: nat)
    requires n > 0 && forall i :: 0 <= i < |es| ==> |es[i]| == n
    ensures Pieces(Concat(es), n) == es
    decreases |es|
  {
    if es != [] {
      var b := Concat(es);
      assert b[..n] == es[0] && b[n..] == Concat(es[1..]);
      PiecesOfConcat(es[1..], n);
    }
  }

  lemma RequestIs(k: Search, start: nat)
    requires start < 0x1_0000
    ensures var r := Request(k, start);
            && |r| == (if k.Information? then 5 else if k.Service? then 7 + |k.uuid| else 7)
            && Get16(r, 1) == start && Get16(r, 3) == 0xffff
            && (k.Groups? ==> r[0] == 0x10 && r[5..] == SVC_TYPE)
            && (k.Declarations? ==> r[0] == 0x08 && r[5..] == DECL_TYPE)
            && (k.Information? ==> r[0] == 0x04)
            && (k.Service? ==> r[0] == 0x06 && r[5..7] == SVC_TYPE && r[7..] == k.uuid)
  {
    var r := Request(k, start);
    Get16OfHandle(r, 1, start);
    Get16OfHandle(r, 3, 0xffff);
  }

  /** The candidates for a request. */
  function Offered(k: Search, t: seq<Attr>, v: Values, start: nat): seq<Candidate>
    requires ValuesOk(v) && start > 0
  {
    if k.Information? then InfoEntries(t, start, 0xffff)
    else Candidates(t, v, k.Groups?, if k.Groups? then SVC_TYPE else DECL_TYPE, start, 0xffff)
  }

  /** The response to a request: an error, or the collected entries behind their format. */
  lemma Response(k: Search, t: seq<Attr>, s: State, start: nat, max: nat)
    requires !k.Service?
    requires Valid(s) && max >= MTU_MIN && 0 < start < 0x1_0000
    ensures var es := Collect(Offered(k, t, s.values, start), Min(max, s.mtu) - 2, 0);
            var rsp := Handle(t, s, Request(k, start), max).rsp;
            && (es == [] ==> rsp != [] && rsp[0] == 1)
            && (es != [] ==>
                  rsp == ListRsp(Request(k, 0)[0] + 1,
                                 if k.Information? then if |es[0]| == 4 then 1 else 2 else |es[0]| % 0x100, es))
  {
    hide Collect, Candidates, InfoEntries, ListRsp, Get16, Request, ValuesOk, Handle, FindInfo, ReadByType;
    RequestIs(k, start);
    RequestCode(k, start);
    if k.Information? {
      InfoResponse(t, s, Request(k, start), max);
    } else {
      TypeResponse(t, s, Request(k, start), max);
    }
  }

  lemma InfoResponse(t: seq<Attr>, s: State, req: Bytes, max: nat)
    requires Valid(s) && max >= MTU_MIN && |req| == 5 && req[0] == 0x04 && 0 < Get16(req, 1) <= Get16(req, 3)
    ensures var es := Collect(InfoEntries(t, Get16(req, 1), Get16(req, 3)), Min(max, s.mtu) - 2, 0);
            var rsp := Handle(t, s, req, max).rsp;
            && (es == [] ==> rsp != [] && rsp[0] == 1)
            && (es != [] ==> rsp == ListRsp(0x05, if |es[0]| == 4 then 1 else 2, es))
  {
    hide Collect, InfoEntries, ListRsp, Get16, ValuesOk;
  }

  lemma TypeResponse(t: seq<Attr>, s: State, req: Bytes, max: nat)
    requires Valid(s) && max >= MTU_MIN && |req| == 7 && (req[0] == 0x08 || req[0] == 0x10)
    requires 0 < Get16(req, 1) <= Get16(req, 3)
    ensures var cs := Candidates(t, s.values, req[0] == 0x10, req[5..], Get16(req, 1), Get16(req, 3));
            var es := Collect(cs, Min(max, s.mtu) - 2, 0);
            var rsp := Handle(t, s, req, max).rsp;
            && (es == [] ==> rsp != [] && rsp[0] == 1)
            && (es != [] ==> rsp == ListRsp(req[0] + 1, |es[0]| % 0x100, es))
  {
    hide Collect, Candidates, ListRsp, Get16, ValuesOk;
  }

  lemma RequestCode(k: Search, start: nat)
    ensures Request(k, 0) != [] && Request(k, start) != [] && Request(k, 0)[0] == Request(k, start)[0] < 0xff
  {
  }

  lemma ParseList(k: Search, es: seq<Bytes>, format: byte)
    requires !k.Service?
    requires es != [] && forall i :: 0 <= i < |es| ==> |es[i]| == |es[0]|
    requires 4 <= |es[0]| < 0x100 && (k.Information? ==> |es[0]| == 4 || |es[0]| == 18)
    requires format == if k.Information? then if |es[0]| == 4 then 1 else 2 else |es[0]| % 0x100
    ensures Parse(k, ListRsp(Request(k, 0)[0] + 1, format, es)) == es
  {
    RequestCode(k, 0);
    PiecesOfConcat(es, |es[0]|);
    hide Request, Pieces, Concat;
    var rsp := ListRsp(Request(k, 0)[0] + 1, format, es);
    assert rsp[2..] == Concat(es);
  }

  lemma ParseError(k: Search, rsp: Bytes)
    requires rsp != [] && rsp[0] == 1
    ensures Parse(k, rsp) == []
  {
  }

  // ---- The response to Find By Type Value ----

  /** The entries of the server are those to find. */
  lemma {:induction false} ServicesAreFound(t: seq<Attr>, uuid: Bytes, h: nat)
    requires |t| < 0xffff && h > 0
    ensures ServiceEntries(t, uuid, h, 0xffff) == Found(Service(uuid), t, h)
    decreases |t| + 1 - h
  {
    hide GroupEnd, Handle16;
    if h <= |t| {
      ServicesAreFound(t, uuid, h + 1);
    }
  }

  lemma ValueResponse(t: seq<Attr>, s: State, req: Bytes, max: nat)
    requires Valid(s) && max >= MTU_MIN && |req| >= 7 && req[0] == 0x06 && req[5..7] == SVC_TYPE
    requires 0 < Get16(req, 1) && Get16(req, 3) == 0xffff
    ensures var es := Fitting(ServiceEntries(t, req[7..], Get16(req, 1), 0xffff), Min(max, s.mtu) - 1);
            var rsp := Handle(t, s, req, max).rsp;
            if es == [] then rsp != [] && rsp[0] == 1 else rsp == [0x07] + Concat(es)
  {
    hide ServiceEntries, Fitting, Concat, Get16, ValuesOk;
  }

  lemma ServiceStep(t: seq<Attr>, s: State, uuid: Bytes, start: nat, max: nat)
    requires WellFormed(t) && Valid(s) && max >= MTU_MIN && 0 < start < 0x1_0000
    ensures var k := Service(uuid);
            var es := Parse(k, Handle(t, s, Request(k, start), max).rsp);
            && es <= Found(k, t, start)
            && (es == [] ==> Found(k, t, start) == [])
  {
    hide Handle, ServiceEntries, Found, Request, Get16, Pieces, Concat, AllAttrsOk, ValuesOk;
    var k := Service(uuid);
    RequestIs(k, start);
    RequestCode(k, start);
    ServicesAreFound(t, uuid, start);
    ValueResponse(t, s, Request(k, start), max);
    var es := Fitting(ServiceEntries(t, uuid, start, 0xffff), Min(max, s.mtu) - 1);
    if es == [] {
      ParseError(k, Handle(t, s, Request(k, start), max).rsp);
    } else {
      ParseServices(uuid, es);
    }
  }

  lemma ParseServices(uuid: Bytes, es: seq<Bytes>)
    requires es != [] && forall i :: 0 <= i < |es| ==> |es[i]| == 4
    ensures Concat(es) != [] && Parse(Service(uuid), [0x07] + Concat(es)) == es
  {
    hide Pieces;
    PiecesOfConcat(es, 4);
    var rsp := [0x07] + Concat(es);
    assert rsp[1..] == Concat(es);
    assert |Concat(es)| >= |es[0]|;
  }

  /** A response gives the next entries, at least one when there are any. */
  lemma Step(k: Search, t: seq<Attr>, s: State, start: nat, max: nat)
    requires WellFormed(t) && Valid(s) && max >= MTU_MIN && 0 < start < 0x1_0000
    ensures var es := Parse(k, Handle(t, s, Request(k, start), max).rsp);
            && es <= Found(k, t, start)
            && (es == [] ==> Found(k, t, start) == [])
  {
    hide Handle, Parse, Found, WellFormed, ValuesOk, Request;
    if k.Service? {
      ServiceStep(t, s, k.uuid, start, max);
    } else {
      ListStep(k, t, s, start, max);
    }
  }

  lemma ListStep(k: Search, t: seq<Attr>, s: State, start: nat, max: nat)
    requires !k.Service?
    requires WellFormed(t) && Valid(s) && max >= MTU_MIN && 0 < start < 0x1_0000
    ensures var es := Parse(k, Handle(t, s, Request(k, start), max).rsp);
            && es <= Found(k, t, start)
            && (es == [] ==> Found(k, t, start) == [])
  {
    hide Handle, Parse, Candidates, InfoEntries, Found, WellFormed, ValuesOk, Request, Concat, ListRsp, Collect;
    Response(k, t, s, start, max);
    CandidatesAre(k, t, s.values, start);
    FoundSizes(k, t, start);
    var cs := Offered(k, t, s.values, start);
    var es := Collect(cs, Min(max, s.mtu) - 2, 0);
    Collected(cs, Min(max, s.mtu) - 2, 0);
    if cs != [] {
      assert cs[0] == Entry(Found(k, t, start)[0]);
      CollectTakes(cs, Min(max, s.mtu) - 2, 0);
    }
    if es == [] {
      ParseError(k, Handle(t, s, Request(k, start), max).rsp);
    } else {
      assert cs[0] == Entry(es[0]) && es[0] == Found(k, t, start)[0];
      ParseList(k, es, if k.Information? then if |es[0]| == 4 then 1 else 2 else |es[0]| % 0x100);
    }
  }

  // ---- Completeness ----

  /** Between a service and its group end, there is no other service. */
  lemma {:induction false} SkipGroup(k: Search, t: seq<Attr>, h: nat)
    requires 1 <= h <= |t| && Grouped(k)
    ensures Found(k, t, h + 1) == Found(k, t, GroupEnd(t, h) + 1)
    decreases |t| - h
  {
    hide EntryBytes;
    if h + 1 <= |t| && !t[h].kind.Svc? {
      SkipGroup(k, t, h + 1);
    }
  }

  lemma AfterEntry(k: Search, t: seq<Attr>, h: nat)
    requires WellFormed(t) && 1 <= h <= |t| && Matches(k, t[h - 1])
    ensures |EntryBytes(k, t, h)| >= 4
    ensures After(k, EntryBytes(k, t, h)) == (if Grouped(k) then GroupEnd(t, h) else h) + 1
  {
    EntrySize(k, t, h);
    var e := EntryBytes(k, t, h);
    hide GroupEnd, AllAttrsOk;
    Get16OfHandle(e, 0, h);
    if Grouped(k) {
      Get16OfHandle(e, 2, GroupEnd(t, h));
    }
  }

  /** What follows the n-th entry begins at the handle after it. */
  lemma {:induction false} Continues(k: Search, t: seq<Attr>, h: nat, n: nat)
    requires WellFormed(t) && h > 0 && 0 < n <= |Found(k, t, h)|
    ensures |Found(k, t, h)[n - 1]| >= 4
    ensures h < After(k, Found(k, t, h)[n - 1]) <= |t| + 1
    ensures Found(k, t, h)[n..] == Found(k, t, After(k, Found(k, t, h)[n - 1]))
    decreases |t| + 1 - h
  {
    hide EntryBytes, After, WellFormed, Matches, GroupEnd;
    if !Matches(k, t[h - 1]) {
      Continues(k, t, h + 1, n);
    } else if n > 1 {
      Continues(k, t, h + 1, n - 1);
      assert Found(k, t, h)[n..] == Found(k, t, h + 1)[n - 1..];
    } else {
      AfterEntry(k, t, h);
      assert Found(k, t, h)[1..] == Found(k, t, h + 1);
      if Grouped(k) {
        SkipGroup(k, t, h);
      }
    }
  }

  lemma {:induction false} DiscoverFrom(k: Search, t: seq<Attr>, s: State, start: nat, max: nat)
    requires WellFormed(t) && Valid(s) && max >= MTU_MIN && 0 < start <= |t| + 1
    ensures Discover(k, t, s, start, max) == Found(k, t, start)
    decreases |t| + 1 - start
  {
    Step(k, t, s, start, max);
    var es := Parse(k, Handle(t, s, Request(k, start), max).rsp);
    hide Handle, Parse, Found, ValuesOk, Request, AllAttrsOk, After;
    if es != [] {
      var all := Found(k, t, start);
      Continues(k, t, start, |es|);
      assert all == es + all[|es|..];
      DiscoverFrom(k, t, s, After(k, es[|es| - 1]), max);
    }
  }

  /** The handles of the matching attributes, in order. */
  function Handles(k: Search, t: seq<Attr>, h: nat): seq<nat>
    requires h > 0
    decreases |t| + 1 - h
  {
    if h > |t| then []
    else if Matches(k, t[h - 1]) then [h] + Handles(k, t, h + 1)
    else Handles(k, t, h + 1)
  }

  /** `hs` are exactly the matching handles from `h`, each once and in order. */
  ghost predicate Exactly(k: Search, t: seq<Attr>, h: nat, hs: seq<nat>)
    requires h > 0
  {
    && (forall x: nat :: x in hs <==> h <= x <= |t| && Matches(k, t[x - 1]))
    && Ascending(hs)
  }

  ghost predicate Ascending(hs: seq<nat>) {
    forall i, j :: 0 <= i < j < |hs| ==> hs[i] < hs[j]
  }

  lemma AscendingFrom(h: nat, later: seq<nat>)
    requires Ascending(later) && forall x :: x in later ==> h < x
    ensures Ascending([h] + later)
  {
    var hs := [h] + later;
    forall i, j | 0 <= i < j < |hs| ensures hs[i] < hs[j] {
      assert hs[j] == later[j - 1];
      assert later[j - 1] in later;
      if i > 0 {
        assert hs[i] == later[i - 1];
      }
    }
  }

  lemma ExactlyGrows(k: Search, t: seq<Attr>, h: nat, later: seq<nat>)
    requires 0 < h <= |t| && Exactly(k, t, h + 1, later)
    ensures Exactly(k, t, h, if Matches(k, t[h - 1]) then [h] + later else later)
  {
    AscendingFrom(h, later);
    hide Matches, Ascending;
  }

  lemma {:induction false} HandlesAreExact(k: Search, t: seq<Attr>, h: nat)
    requires h > 0
    ensures Exactly(k, t, h, Handles(k, t, h))
    decreases |t| + 1 - h
  {
    if h <= |t| {
      hide Matches, Exactly;
      HandlesAreExact(k, t, h + 1);
      ExactlyGrows(k, t, h, Handles(k, t, h + 1));
    }
  }

  lemma {:induction false} FoundByHandle(k: Search, t: seq<Attr>, h: nat)
    requires h > 0
    ensures |Handles(k, t, h)| == |Found(k, t, h)|
    ensures forall i :: 0 <= i < |Handles(k, t, h)| ==>
              1 <= Handles(k, t, h)[i] <= |t| && Found(k, t, h)[i] == EntryBytes(k, t, Handles(k, t, h)[i])
    decreases |t| + 1 - h
  {
    hide EntryBytes, Matches;
    if h <= |t| {
      FoundByHandle(k, t, h + 1);
    }
  }

  /** What a client learns from an entry. */
  lemma EntryMeans(k: Search, t: seq<Attr>, h: nat)
    requires WellFormed(t) && 1 <= h <= |t| && Matches(k, t[h - 1])
    ensures var e := EntryBytes(k, t, h);
            && |e| >= 4 && Get16(e, 0) == h
            && (Grouped(k) ==> Get16(e, 2) == GroupEnd(t, h))
            && (k.Groups? ==> e[4..] == t[h - 1].uuid)
            && (k.Declarations? ==> |e| > 5 && e[2] == t[h - 1].props && Get16(e, 3) == h + 1 && e[5..] == t[h - 1].uuid)
            && (k.Information? ==> e[2..] == AttrType(t[h - 1]))
  {
    hide GroupEnd, AttrType;
    EntrySize(k, t, h);
    assert AttrOk(t[h - 1]);
    var e := EntryBytes(k, t, h);
    Get16OfHandle(e, 0, h);
    if Grouped(k) {
      Get16OfHandle(e, 2, GroupEnd(t, h));
    } else if k.Declarations? {
      Get16OfHandle(e, 3, h + 1);
    }
  }

  /** Discovery is complete: with any MTU, a client that goes on from the handle after the last
      entry terminates, and gets each service with its group end, each characteristic
      declaration, each handle with its type, or each service with a UUID and its group end,
      exactly once and in order. */
  lemma DiscoveryIsComplete(k: Search, t: seq<Attr>, s: State, max: nat)
    requires WellFormed(t) && Valid(s) && max >= MTU_MIN
    ensures var hs, found := Handles(k, t, 1), Discover(k, t, s, 1, max);
            && Exactly(k, t, 1, hs) && |found| == |hs|
            && forall i :: 0 <= i < |hs| ==> 1 <= hs[i] <= |t| && found[i] == EntryBytes(k, t, hs[i])
  {
    DiscoverFrom(k, t, s, 1, max);
    HandlesAreExact(k, t, 1);
    FoundByHandle(k, t, 1);
    hide Exactly, Handles, Discover, Found, EntryBytes;
  }

  /** The table of this server is one of those. */
  lemma ImprovIsFound(k: Search, s: State, max: nat)
    requires Valid(s) && max >= MTU_MIN
    ensures var hs, found := Handles(k, DB, 1), Discover(k, DB, s, 1, max);
            && Exactly(k, DB, 1, hs) && |found| == |hs|
            && forall i :: 0 <= i < |hs| ==> 1 <= hs[i] <= |DB| && found[i] == EntryBytes(k, DB, hs[i])
  {
    DbIsWellFormed();
    hide Exactly, Handles, Discover, WellFormed;
    DiscoveryIsComplete(k, DB, s, max);
  }

  // ---- Long reads ----

  /** What a Read Blob response gives after `got`, until one that is shorter than the MTU. */
  function ReadMore(t: seq<Attr>, s: State, h: u16, got: Bytes, max: nat): Option<Bytes>
    requires Valid(s) && max >= MTU_MIN
    decreases 0x1_0000 - |got|
  {
    if |got| >= 0x1_0000 then None
    else
      var rsp := Handle(t, s, [0x0c] + Handle16(h) + Handle16(|got|), max).rsp;
      if rsp == [] || rsp[0] != 0x0d then None
      else if |rsp| < s.mtu then Some(got + rsp[1..])
      else if |rsp| < 2 then None
      else ReadMore(t, s, h, got + rsp[1..], max)
  }

  /** A Read, and Read Blobs at growing offsets. */
  function ReadLong(t: seq<Attr>, s: State, h: u16, max: nat): Option<Bytes>
    requires Valid(s) && max >= MTU_MIN
  {
    var rsp := Handle(t, s, [0x0a] + Handle16(h), max).rsp;
    if rsp == [] || rsp[0] != 0x0b then None
    else if |rsp| < s.mtu then Some(rsp[1..])
    else ReadMore(t, s, h, rsp[1..], max)
  }

  lemma BlobRequest(h: u16, off: u16)
    ensures var req := [0x0c] + Handle16(h) + Handle16(off);
            |req| == 5 && req[0] == 0x0c && Get16(req, 1) == h && Get16(req, 3) == off
    ensures var req := [0x0a] + Handle16(h); |req| == 3 && req[0] == 0x0a && Get16(req, 1) == h
  {
    Get16OfHandle([0x0c] + Handle16(h) + Handle16(off), 1, h);
    Get16OfHandle([0x0c] + Handle16(h) + Handle16(off), 3, off);
    Get16OfHandle([0x0a] + Handle16(h), 1, h);
  }

  lemma ReadRsp(t: seq<Attr>, s: State, req: Bytes, h: u16, off: u16, max: nat)
    requires Valid(s) && s.mtu <= max && AttrValue(t, s.values, h).Data?
    requires |req| >= 3 && Get16(req, 1) == h
    requires if req[0] == 0x0c then |req| == 5 && Get16(req, 3) == off else req[0] == 0x0a && off == 0
    ensures var d := AttrValue(t, s.values, h).bytes;
            off <= |d| ==> Handle(t, s, req, max).rsp == [req[0] + 1] + d[off..Min(|d|, off + s.mtu - 1)]
  {
    hide AttrValue, Get16, ValuesOk, FindInfo, FindByValue, ReadByType;
  }

  lemma BlobIs(t: seq<Attr>, s: State, h: u16, off: nat, max: nat)
    requires Valid(s) && s.mtu <= max && AttrValue(t, s.values, h).Data? && off < 0x1_0000
    ensures var d := AttrValue(t, s.values, h).bytes;
            off <= |d| ==> Handle(t, s, [0x0c] + Handle16(h) + Handle16(off), max).rsp
                           == [0x0d] + d[off..Min(|d|, off + s.mtu - 1)]
  {
    hide AttrValue, Get16, Handle16, ValuesOk, Handle;
    BlobRequest(h, off);
    ReadRsp(t, s, [0x0c] + Handle16(h) + Handle16(off), h, off, max);
  }

  lemma ReadIs(t: seq<Attr>, s: State, h: u16, max: nat)
    requires Valid(s) && s.mtu <= max && AttrValue(t, s.values, h).Data?
    ensures var d := AttrValue(t, s.values, h).bytes;
            Handle(t, s, [0x0a] + Handle16(h), max).rsp == [0x0b] + d[0..Min(|d|, s.mtu - 1)]
  {
    hide AttrValue, Get16, Handle16, ValuesOk, Handle;
    BlobRequest(h, 0);
    ReadRsp(t, s, [0x0a] + Handle16(h), h, 0, max);
  }

  lemma {:induction false} ReadMoreGets(t: seq<Attr>, s: State, h: u16, n: nat, max: nat)
    requires Valid(s) && s.mtu <= max && AttrValue(t, s.values, h).Data?
    requires n <= |AttrValue(t, s.values, h).bytes| < 0x1_0000
    ensures var d := AttrValue(t, s.values, h).bytes; ReadMore(t, s, h, d[..n], max) == Some(d)
    decreases 0x1_0000 - n
  {
    var d := AttrValue(t, s.values, h).bytes;
    BlobIs(t, s, h, n, max);
    hide AttrValue, Handle, Handle16, ValuesOk;
    var m := Min(|d|, n + s.mtu - 1);
    assert d[..n] + d[n..m] == d[..m] && ([0x0d] + d[n..m])[1..] == d[n..m];
    if m < n + s.mtu - 1 {
      assert d[..m] == d;
    } else {
      ReadMoreGets(t, s, h, m, max);
    }
  }

  /** A long read gives the whole value, whatever its length and the MTU. */
  lemma LongReadIsExact(t: seq<Attr>, s: State, h: u16, max: nat)
    requires Valid(s) && s.mtu <= max && AttrValue(t, s.values, h).Data?
    requires |AttrValue(t, s.values, h).bytes| < 0x1_0000
    ensures ReadLong(t, s, h, max) == Some(AttrValue(t, s.values, h).bytes)
  {
    var d := AttrValue(t, s.values, h).bytes;
    ReadIs(t, s, h, max);
    var m := Min(|d|, s.mtu - 1);
    assert ([0x0b] + d[0..m])[1..] == d[..m];
    if m < s.mtu - 1 {
      assert d[..m] == d;
    } else {
      ReadMoreGets(t, s, h, m, max);
    }
    hide AttrValue, Handle, ReadMore, ValuesOk;
  }

  /** So a client can read each attribute of this server, but for the RPC command: this is what it
      gets.  The descriptors are in `DescriptorIsRead`. */
  lemma ImprovIsRead(s: State, h: u16, max: nat)
    requires Valid(s) && s.mtu <= max && 1 <= h <= 19 && h != RPC_VALUE
    ensures |DB| == 19
    ensures h == 3 ==> ReadLong(DB, s, h, max) == Some(s.values.name)
    ensures h == 5 ==> ReadLong(DB, s, h, max) == Some([0, 0])
    ensures h == 8 ==> ReadLong(DB, s, h, max) == Some([s.values.state])
    ensures h == 11 ==> ReadLong(DB, s, h, max) == Some([s.values.error])
    ensures h == 16 ==> ReadLong(DB, s, h, max) == Some(s.values.result)
    ensures h == 19 ==> ReadLong(DB, s, h, max) == Some([s.values.caps])
    ensures h == 1 ==> ReadLong(DB, s, h, max) == Some([0x00, 0x18])
    ensures h == 6 ==> ReadLong(DB, s, h, max) == Some(ImprovUuid(0))
    ensures DB[h - 1].kind.Decl? ==> ReadLong(DB, s, h, max) == Some([DB[h - 1].props, h + 1, 0] + DB[h - 1].uuid)
    ensures DB[h - 1].kind.Cccd? ==> ReadLong(DB, s, h, max) == Some(Descriptor(s.values, h))
  {
    hide ReadLong, WellFormed;
    DbReads(s.values, h);
    LongReadIsExact(DB, s, h, max);
    DbShape(h);
    DbHandles(h);
    AttrAt(h);
    if DB[h - 1].kind.Decl? {
      assert [DB[h - 1].props] + Handle16(h + 1) == [DB[h - 1].props, h + 1, 0];
    }
  }

  /** The bytes of a descriptor, over a connection: those of the last write to it. */
  lemma DescriptorIsRead(s: State, reqs: seq<Bytes>, h: u16, max: nat)
    requires Valid(s) && s.mtuMax <= max && (h == 9 || h == 12 || h == 17) && s.values.cccd == [0, 0, 0]
    ensures var e := HandleAll(DB, s, reqs, max).0;
            && Valid(e) && e.values == s.values.(cccd := e.values.cccd)
            && ReadLong(DB, e, h, max) == Some(Written(reqs, h, [0, 0]))
  {
    hide HandleAll, ReadLong, Written;
    RunStores(s, reqs, max, h);
    StaysValid(s, reqs, max);
    DbHandles(h);
    ImprovIsRead(HandleAll(DB, s, reqs, max).0, h, max);
  }

  lemma {:induction false} StaysValid(s: State, reqs: seq<Bytes>, max: nat)
    requires Valid(s) && max >= MTU_MIN
    ensures Valid(HandleAll(DB, s, reqs, max).0) && HandleAll(DB, s, reqs, max).0.mtuMax == s.mtuMax
    decreases |reqs|
  {
    hide Handle, Valid;
    if reqs != [] {
      HandleKeeps(DB, s, reqs[0], max);
      StaysValid(Handle(DB, s, reqs[0], max).state, reqs[1..], max);
    }
  }

  lemma DeniedRead(t: seq<Attr>, s: State, req: Bytes, h: u16, error: byte, max: nat)
    requires Valid(s) && max >= MTU_MIN && |req| >= 3 && (req[0] == 0x0a || req[0] == 0x0c) && Get16(req, 1) == h
    requires AttrValue(t, s.values, h) == Denied(error)
    ensures Handle(t, s, req, max).rsp == [0x01, req[0], h % 0x100, h / 0x100, error]
  {
    hide AttrValue, FindInfo, FindByValue, ReadByType, ValuesOk, Get16;
  }

  lemma PastTheEnd(t: seq<Attr>, s: State, req: Bytes, h: u16, max: nat)
    requires Valid(s) && max >= MTU_MIN && |req| == 5 && req[0] == 0x0c && Get16(req, 1) == h
    requires AttrValue(t, s.values, h).Data? && Get16(req, 3) > |AttrValue(t, s.values, h).bytes|
    ensures Handle(t, s, req, max).rsp == [0x01, 0x0c, h % 0x100, h / 0x100, 0x07]
  {
    hide AttrValue, FindInfo, FindByValue, ReadByType, ValuesOk, Get16;
  }

  /** What cannot be read, and why: a handle that is not there, the RPC command, and an offset past the
      end of a value. */
  lemma ReadIsRefused(s: State, h: u16, off: u16, max: nat)
    requires Valid(s) && max >= MTU_MIN
    ensures var lo, hi := h % 0x100, h / 0x100;
            && (h == RPC_VALUE ==> Handle(DB, s, [0x0a, lo, hi], max).rsp == [0x01, 0x0a, lo, hi, 0x02])
            && (h < 1 || h > 19 ==> Handle(DB, s, [0x0a, lo, hi], max).rsp == [0x01, 0x0a, lo, hi, 0x01])
            && (AttrValue(DB, s.values, h).Data? && off > |AttrValue(DB, s.values, h).bytes| ==>
                  Handle(DB, s, [0x0c, lo, hi, off % 0x100, off / 0x100], max).rsp == [0x01, 0x0c, lo, hi, 0x07])
  {
    hide AttrValue, Handle, ValuesOk, Get16;
    DbReads(s.values, h);
    var lo, hi := h % 0x100, h / 0x100;
    var read, blob := [0x0a, lo, hi], [0x0c, lo, hi, off % 0x100, off / 0x100];
    Get16OfHandle(read, 1, h);
    Get16OfHandle(blob, 1, h);
    Get16OfHandle(blob, 3, off);
    if h == RPC_VALUE {
      DeniedRead(DB, s, read, h, ERR_READ_NOT_PERM, max);
    } else if h < 1 || h > 19 {
      DeniedRead(DB, s, read, h, ERR_INVALID_HANDLE, max);
    } else if off > |AttrValue(DB, s.values, h).bytes| {
      PastTheEnd(DB, s, blob, h, max);
    }
  }
}
