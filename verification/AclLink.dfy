/** ACL packets, and how their fragments become L2CAP frames again. */
module AclLink {
  import opened Words

  const L2_MAX := 256

  datatype Frame = Frame(cid: u16, data: Bytes)

  /** The bytes of an L2CAP frame. */
  function FrameBytes(f: Frame): Bytes
    requires |f.data| < 0x1_0000
  {
    Le16(|f.data|) + Le16(f.cid) + f.data
  }

  /** A fragment: the handle, the two boundary bits, the two broadcast bits, and the payload. */
  datatype Fragment = Fragment(handle: nat, boundary: nat, broadcast: nat, payload: Bytes)

  predicate FragmentOk(f: Fragment) {
    f.handle < 0x1000 && f.boundary < 4 && f.broadcast < 4 && |f.payload| < 0x1_0000
  }

  /** The bytes of an ACL packet. */
  function AclBytes(f: Fragment): Bytes
    requires FragmentOk(f)
  {
    [0x02, f.handle % 0x100, f.handle / 0x100 + 0x10 * f.boundary + 0x40 * f.broadcast] + Le16(|f.payload|) + f.payload
  }

  /** hci_acl_frame() */
  function AclFrame(handle: nat, cid: u16, data: Bytes): Bytes {
    var l2 := |data| + 4;
    [0x02, handle % 0x100, handle / 0x100 % 0x10, l2 % 0x100, l2 / 0x100 % 0x100,
     |data| % 0x100, |data| / 0x100 % 0x100, cid % 0x100, cid / 0x100] + data
  }

  /** What handle_acl() has so far, and the frame that it passes on. */
  datatype Result = Result(l2: Bytes, frame: Option<Frame>)

  /** handle_acl() */
  function HandleAcl(l2: Bytes, p: Bytes): Result {
    if |p| < 5 then Result(l2, None)
    else
      var dl: nat := FromLe16(p[3], p[4]);
      if dl + 5 > |p| then Result(l2, None)
      else
        var before := if p[2] / 0x10 % 4 != 1 then [] else l2;
        if |before| + dl > L2_MAX then Result([], None) else Complete(before + p[5..5 + dl])
  }

  function Complete(l2: Bytes): Result {
    if |l2| < 4 || |l2| < FromLe16(l2[0], l2[1]) + 4 then Result(l2, None)
    else Result([], Some(Frame(FromLe16(l2[2], l2[3]), l2[4..FromLe16(l2[0], l2[1]) + 4])))
  }

  /** A packet after another: the frames in order. */
  function HandleAll(l2: Bytes, ps: seq<Bytes>): (Bytes, seq<Frame>)
    decreases |ps|
  {
    if ps == [] then (l2, [])
    else
      var r := HandleAcl(l2, ps[0]);
      var (rest, fs) := HandleAll(r.l2, ps[1..]);
      (rest, (if r.frame.Some? then [r.frame.value] else []) + fs)
  }

  lemma HandleFirst(l2: Bytes, ps: seq<Bytes>)
    requires ps != []
    ensures var r := HandleAcl(l2, ps[0]);
            && (r.frame.None? ==> HandleAll(l2, ps) == HandleAll(r.l2, ps[1..]))
            && (r.frame.Some? ==>
                  HandleAll(l2, ps) == (HandleAll(r.l2, ps[1..]).0, [r.frame.value] + HandleAll(r.l2, ps[1..]).1))
  {
    hide HandleAcl;
    var more := HandleAll(HandleAcl(l2, ps[0]).l2, ps[1..]).1;
    assert [] + more == more;
  }

  function Payloads(fs: seq<Fragment>): Bytes {
    if fs == [] then [] else fs[0].payload + Payloads(fs[1..])
  }

  predicate AllOk(fs: seq<Fragment>) {
    forall i :: 0 <= i < |fs| ==> FragmentOk(fs[i])
  }

  function Packets(fs: seq<Fragment>): (ps: seq<Bytes>)
    requires AllOk(fs)
    ensures |ps| == |fs|
  {
    if fs == [] then [] else [AclBytes(fs[0])] + Packets(fs[1..])
  }

  /** Fragments of one frame: a start, then continuations, cut anywhere. */
  predicate Carries(fs: seq<Fragment>, f: Frame) {
    && fs != [] && AllOk(fs) && fs[0].boundary != 1
    && (forall i :: 1 <= i < |fs| ==> fs[i].boundary == 1)
    && |f.data| + 4 <= L2_MAX && Payloads(fs) == FrameBytes(f)
  }

  lemma Fields(f: Fragment)
    requires FragmentOk(f)
    ensures var p := AclBytes(f);
            && |p| == 5 + |f.payload| && FromLe16(p[3], p[4]) == |f.payload|
            && p[2] / 0x10 % 4 == f.boundary && p[5..5 + |f.payload|] == f.payload
  {
    var p := AclBytes(f);
    assert p[2] / 0x10 == f.boundary + 4 * f.broadcast;
  }

  lemma OneFragment(l2: Bytes, f: Fragment)
    requires FragmentOk(f)
    ensures var before := if f.boundary != 1 then [] else l2;
            HandleAcl(l2, AclBytes(f)) ==
            if |before| + |f.payload| > L2_MAX then Result([], None) else Complete(before + f.payload)
  {
    Fields(f);
    hide AclBytes, Complete, FromLe16;
  }

  lemma CompletePart(f: Frame, n: nat)
    requires |f.data| + 4 <= L2_MAX && n <= |FrameBytes(f)|
    ensures |FrameBytes(f)| == |f.data| + 4
    ensures Complete(FrameBytes(f)[..n]) ==
            if n < |FrameBytes(f)| then Result(FrameBytes(f)[..n], None) else Result([], Some(f))
  {
    var b := FrameBytes(f);
    assert FromLe16(b[0], b[1]) == |f.data| && FromLe16(b[2], b[3]) == f.cid && b[4..|f.data| + 4] == f.data;
    hide FrameBytes, FromLe16;
    if n == |b| {
      assert b[..n] == b;
    }
  }

  lemma {:induction false} EmptyContinuations(fs: seq<Fragment>)
    requires AllOk(fs) && Payloads(fs) == [] && forall i :: 0 <= i < |fs| ==> fs[i].boundary == 1
    ensures HandleAll([], Packets(fs)) == ([], [])
    decreases |fs|
  {
    hide HandleAcl;
    if fs != [] {
      assert FragmentOk(fs[0]) && fs[0].payload == [];
      OneFragment([], fs[0]);
      NothingYet();
      assert Packets(fs)[1..] == Packets(fs[1..]);
      EmptyContinuations(fs[1..]);
    }
  }

  lemma NothingYet()
    ensures Complete([] + []) == Result([], None)
  {
  }

  lemma {:induction false} Continues(l2: Bytes, fs: seq<Fragment>, f: Frame)
    requires AllOk(fs) && |f.data| + 4 <= L2_MAX && l2 + Payloads(fs) == FrameBytes(f) && |l2| < |FrameBytes(f)|
    requires forall i :: 0 <= i < |fs| ==> fs[i].boundary == 1
    ensures HandleAll(l2, Packets(fs)) == ([], [f])
    decreases |fs|, 0
  {
    hide HandleAcl, FrameBytes, Complete;
    if fs != [] {
      HandleFirst(l2, Packets(fs));
      assert FragmentOk(fs[0]);
      OneFragment(l2, fs[0]);
      Assoc(l2, fs[0].payload, Payloads(fs[1..]));
      var all := l2 + fs[0].payload;
      assert all == FrameBytes(f)[..|all|];
      CompletePart(f, |all|);
      assert Packets(fs)[1..] == Packets(fs[1..]);
      Rest(all, fs[1..], f);
      assert [f] + [] == [f];
    }
  }

  lemma {:induction false} Rest(all: Bytes, fs: seq<Fragment>, f: Frame)
    requires AllOk(fs) && |f.data| + 4 <= L2_MAX && all + Payloads(fs) == FrameBytes(f)
    requires forall i :: 0 <= i < |fs| ==> fs[i].boundary == 1
    ensures all != FrameBytes(f) ==> HandleAll(all, Packets(fs)) == ([], [f])
    ensures all == FrameBytes(f) ==> HandleAll([], Packets(fs)) == ([], [])
    decreases |fs|, 1
  {
    hide FrameBytes, HandleAll, Packets;
    if all == FrameBytes(f) {
      assert Payloads(fs) == [];
      EmptyContinuations(fs);
    } else {
      Continues(all, fs, f);
    }
  }

  /** However a frame is cut into fragments, it arrives once and unchanged, whatever an earlier
      frame has left. */
  lemma FragmentsDoNotMatter(l2: Bytes, fs: seq<Fragment>, f: Frame)
    requires Carries(fs, f)
    ensures HandleAll(l2, Packets(fs)) == ([], [f])
  {
    hide HandleAcl, FrameBytes, Complete;
    HandleFirst(l2, Packets(fs));
    assert FragmentOk(fs[0]);
    OneFragment(l2, fs[0]);
    var first := fs[0].payload;
    assert [] + first == first && first == FrameBytes(f)[..|first|];
    CompletePart(f, |first|);
    assert Packets(fs)[1..] == Packets(fs[1..]);
    Rest(first, fs[1..], f);
    assert [f] + [] == [f];
  }

  lemma SendFields(handle: nat, cid: u16, data: Bytes)
    requires |data| + 4 <= L2_MAX
    ensures var p := AclFrame(handle, cid, data);
            && |p| == |data| + 9 && FromLe16(p[3], p[4]) == |data| + 4 && p[2] / 0x10 % 4 == 0
            && p[5..|data| + 9] == FrameBytes(Frame(cid, data))
  {
    assert |data| / 0x100 % 0x100 == |data| / 0x100 && (|data| + 4) / 0x100 % 0x100 == (|data| + 4) / 0x100;
  }

  /** A packet of hci_acl_frame() has the packet type, the twelve bits of the handle, the boundary and
      broadcast bits 0, and the size of the rest. */
  lemma SendHeader(handle: nat, cid: u16, data: Bytes)
    requires |data| + 4 <= L2_MAX && handle < 0x1000
    ensures var p := AclFrame(handle, cid, data);
            && |p| == |data| + 9 && p[0] == 0x02
            && p[1] as int + 0x100 * (p[2] % 0x10) as int == handle && p[2] / 0x10 == 0
            && p[3] as int + 0x100 * p[4] as int == |data| + 4
    ensures AclFrame(handle, cid, data) == AclBytes(Fragment(handle, 0, 0, FrameBytes(Frame(cid, data))))
  {
    var p, q := AclFrame(handle, cid, data), AclBytes(Fragment(handle, 0, 0, FrameBytes(Frame(cid, data))));
    assert handle / 0x100 % 0x10 == handle / 0x100;
    assert |data| / 0x100 % 0x100 == |data| / 0x100 && (|data| + 4) / 0x100 % 0x100 == (|data| + 4) / 0x100;
    assert p[..5] == q[..5] && p[5..] == q[5..];
    assert p == p[..5] + p[5..] && q == q[..5] + q[5..];
  }

  /** Receiving inverts sending: a packet of hci_acl_frame() is the frame. */
  lemma SendReceive(l2: Bytes, handle: nat, cid: u16, data: Bytes)
    requires |data| + 4 <= L2_MAX
    ensures HandleAcl(l2, AclFrame(handle, cid, data)) == Result([], Some(Frame(cid, data)))
  {
    SendFields(handle, cid, data);
    CompletePart(Frame(cid, data), |data| + 4);
    hide FrameBytes, Complete, AclFrame, FromLe16;
    var b := FrameBytes(Frame(cid, data));
    assert [] + b == b == b[..|data| + 4];
  }

  class Link {
    const l2: array<byte>
    var len: nat

    ghost predicate Ok()
      reads this
    {
      l2.Length == L2_MAX && len <= L2_MAX
    }

    ghost function So(): Bytes
      requires Ok()
      reads this, l2
    {
      l2[..len]
    }

    constructor ()
      ensures Ok() && fresh(l2) && So() == []
    {
      len := 0;
      l2 := new byte[L2_MAX];
    }

    /** handle_acl() */
    method Receive(p: Bytes) returns (frame: Option<Frame>)
      requires Ok()
      modifies this, l2
      ensures Ok() && Result(So(), frame) == HandleAcl(old(So()), p)
    {
      frame := None;
      if |p| < 5 {
        return;
      }
      var dl := FromLe16(p[3], p[4]);
      if dl + 5 > |p| {
        return;
      }
      hide FromLe16;
      hide Complete;
      if p[2] / 0x10 % 4 != 1 {
        len := 0;
      }
      if len + dl > L2_MAX {
        len := 0;
        return;
      }
      var at := len;
      ghost var before := l2[..at];
      forall i | 0 <= i < dl {
        l2[at + i] := p[5 + i];
      }
      len := at + dl;
      assert l2[..len] == before + p[5..5 + dl];
      frame := PassOn();
    }

    /** The end of handle_acl(): a whole frame goes on. */
    method PassOn() returns (frame: Option<Frame>)
      requires Ok()
      modifies this
      ensures Ok() && Result(So(), frame) == Complete(old(So()))
    {
      frame := None;
      var all := l2[..len];
      if len < 4 {
        return;
      }
      var need := FromLe16(all[0], all[1]) + 4;
      if len < need {
        return;
      }
      frame := Some(Frame(FromLe16(all[2], all[3]), all[4..need]));
      len := 0;
    }
  }
}
