/**
 One direction of the transport as a state machine.  Each step is one access to a
 shared word, or the copy of one byte, so that the steps of the two harts can
 interleave between any two of them.

 The ring with its words HEAD and TAIL, and the word WAIT, are the shared state.  `pc`,
 `frame` and `kick` belong to the producer, `cc` to the consumer.  The log is history: the
 unbounded counters, and the frames that were pushed, are in flight, and were taken.
 */
module RingDirection {
  import opened Words
  import opened RingLayout

  datatype ProducerPc =
    | PIdle
    | PTry(second: bool)      // about to load TAIL and to compare the free space
    | PCopy(done: set<nat>)   // storing the record bytes, in any order
    | PFence(oldHead: u32)    // HEAD is stored; about to load TAIL for the doorbell
    | PSetWait                // the first try failed; about to set WAIT
    | PGaveUp                 // the second try failed
    | PDone                   // the frame is pushed
    | PEnd                    // no more frames to push

  datatype ConsumerPc =
    | CAsleep                                      // waits for a wake-up
    | CLoad                                        // about to load HEAD
    | CLength(seen: u32, frames: nat, got: Bytes)  // reading the length word
    | CAlloc(len: u32)                             // about to get memory for the frame
    | CFrame(len: u32, got: Bytes)                 // copying the frame
    | CStoreTail(len: u32, keep: bool, got: Bytes) // about to store TAIL
    | CCheckWait                                   // about to load WAIT
    | CClearWait                                   // saw WAIT; about to clear it
    | CRing                                        // about to ring the producer
    | CBad                                         // the branch "bad frame length"

  datatype Ring = Ring(mem: Bytes, head: u32, tail: u32)

  datatype Log = Log(
    h: nat, t: nat, pushed: seq<Bytes>, flight: seq<Bytes>,
    taken: seq<Bytes>, kept: seq<bool>, delivered: seq<Bytes>)

  datatype Direction = Direction(
    link: Link, ring: Ring, wait: bool,
    pc: ProducerPc, frame: Bytes, kick: bool,
    cc: ConsumerPc,
    log: Log)

  /** The frames of `fs` whose flag is set. */
  function Select(fs: seq<Bytes>, keep: seq<bool>): seq<Bytes>
    requires |fs| == |keep|
  {
    if fs == [] then []
    else
      var n := |fs| - 1;
      Select(fs[..n], keep[..n]) + if keep[n] then [fs[n]] else []
  }

  lemma {:induction false} SelectAll(fs: seq<Bytes>, keep: seq<bool>)
    requires |fs| == |keep| && forall i :: 0 <= i < |keep| ==> keep[i]
    ensures Select(fs, keep) == fs
  {
    if fs != [] {
      SelectAll(fs[..|fs| - 1], keep[..|fs| - 1]);
    }
  }

  function Room(size: nat, head: u32, tail: u32): u32 {
    (size - (head - tail) % WORD) % WORD
  }

  // ---- The steps of the producer ----

  ghost predicate CanWrite(d: Direction, i: nat) {
    d.pc.PCopy? && |d.ring.mem| > 0 && |d.frame| < WORD - 4 && i < 4 + |d.frame| && i !in d.pc.done
  }

  ghost predicate CanPublish(d: Direction) {
    d.pc.PCopy? && forall i :: 0 <= i < 4 + |d.frame| ==> i in d.pc.done
  }

  function Try(d: Direction): Direction
    requires d.pc.PTry?
  {
    if RecordLen(|d.frame|) <= Room(d.link.size, d.ring.head, d.ring.tail) then d.(pc := PCopy({}))
    else if d.pc.second then d.(pc := PGaveUp)
    else d.(pc := PSetWait)
  }

  function WriteByte(d: Direction, i: nat): Direction
    requires CanWrite(d, i)
  {
    var q := Slot(|d.ring.mem|, (d.ring.head + i) % WORD);
    d.(ring := d.ring.(mem := d.ring.mem[q := Record(d.frame)[i]]), pc := PCopy(d.pc.done + {i}))
  }

  function Publish(d: Direction): Direction
    requires CanPublish(d)
  {
    var need := RecordLen(|d.frame|);
    d.(ring := d.ring.(head := (d.ring.head + need) % WORD), pc := PFence(d.ring.head),
       log := d.log.(h := d.log.h + need, pushed := d.log.pushed + [d.frame], flight := d.log.flight + [d.frame]))
  }

  /** `*kick |= TAIL == old head`; the caller then goes on to the next frame or is done. */
  function Fence(d: Direction): Direction
    requires d.pc.PFence?
  {
    d.(kick := d.kick || d.ring.tail == d.pc.oldHead, pc := PDone)
  }

  function SetWait(d: Direction): Direction
    requires d.pc.PSetWait?
  {
    d.(wait := true, pc := PTry(true))
  }

  // ---- The steps of the consumer ----

  function Load(d: Direction): Direction
    requires d.cc.CLoad?
  {
    if d.ring.head == d.ring.tail then d.(cc := CAsleep) else d.(cc := CLength(d.ring.head, |d.log.flight|, []))
  }

  ghost predicate CanReadLength(d: Direction) {
    d.cc.CLength? && |d.cc.got| < 4 && |d.ring.mem| > 0
  }

  function ReadLength(d: Direction): Direction
    requires CanReadLength(d)
  {
    var b := d.ring.mem[Slot(|d.ring.mem|, (d.ring.tail + |d.cc.got|) % WORD)];
    d.(cc := CLength(d.cc.seen, d.cc.frames, d.cc.got + [b]))
  }

  ghost predicate CanCheckLength(d: Direction) {
    d.cc.CLength? && |d.cc.got| == 4
  }

  function BadLength(link: Link, len: u32, available: u32): bool {
    len < HEADER_LEN || len > link.lengthMax || RecordLen(len) > available
  }

  function CheckLength(d: Direction): Direction
    requires CanCheckLength(d)
  {
    var len := FromLe32(d.cc.got);
    if BadLength(d.link, len, (d.cc.seen - d.ring.tail) % WORD) then d.(cc := CBad) else d.(cc := CAlloc(len))
  }

  function Alloc(d: Direction, ok: bool): Direction
    requires d.cc.CAlloc?
  {
    if ok then d.(cc := CFrame(d.cc.len, []))
    else if d.link.drops then d.(cc := CStoreTail(d.cc.len, false, []))
    else d.(cc := CLoad)
  }

  ghost predicate CanReadByte(d: Direction) {
    d.cc.CFrame? && |d.cc.got| < d.cc.len && |d.ring.mem| > 0
  }

  function ReadByte(d: Direction): Direction
    requires CanReadByte(d)
  {
    var b := d.ring.mem[Slot(|d.ring.mem|, (d.ring.tail + 4 + |d.cc.got|) % WORD)];
    d.(cc := CFrame(d.cc.len, d.cc.got + [b]))
  }

  ghost predicate CanFinishFrame(d: Direction) {
    d.cc.CFrame? && |d.cc.got| == d.cc.len
  }

  function FinishFrame(d: Direction): Direction
    requires CanFinishFrame(d)
  {
    d.(cc := CStoreTail(d.cc.len, true, d.cc.got))
  }

  ghost predicate CanStoreTail(d: Direction) {
    d.cc.CStoreTail? && d.log.flight != []
  }

  function StoreTail(d: Direction): Direction
    requires CanStoreTail(d)
  {
    var n := RecordLen(d.cc.len);
    d.(ring := d.ring.(tail := (d.ring.tail + n) % WORD), cc := CCheckWait,
       log := d.log.(t := d.log.t + n, flight := d.log.flight[1..],
                     taken := d.log.taken + [d.log.flight[0]], kept := d.log.kept + [d.cc.keep],
                     delivered := if d.cc.keep then d.log.delivered + [d.cc.got] else d.log.delivered))
  }

  function CheckWait(d: Direction): Direction
    requires d.cc.CCheckWait?
  {
    d.(cc := if d.wait then CClearWait else CLoad)
  }

  function ClearWait(d: Direction): Direction
    requires d.cc.CClearWait?
  {
    d.(wait := false, cc := CRing)
  }

  // ---- The bytes and the counters: what every step keeps ----

  ghost predicate Counters(link: Link, r: Ring, log: Log) {
    && (link == TO_FW || link == TO_HOST)
    && |r.mem| == link.size
    && Wraps(r.head, log.h) && Wraps(r.tail, log.t)
    && log.h == log.t + Total(log.flight)
    && log.h - log.t <= link.size
    && Aligned(log.h) && Aligned(log.t)
    && (forall f :: f in log.flight ==> FrameOk(link, f))
    && Holds(r.mem, log.t, log.flight)
  }

  ghost predicate History(link: Link, log: Log) {
    && log.pushed == log.taken + log.flight
    && |log.taken| == |log.kept|
    && log.delivered == Select(log.taken, log.kept)
    && (!link.drops ==> forall i :: 0 <= i < |log.kept| ==> log.kept[i])
  }

  /** The bytes that a copy has stored so far. */
  ghost predicate Copied(mem: Bytes, h: nat, f: Bytes, done: set<nat>)
    requires |mem| > 0 && |f| < WORD
  {
    forall i :: i in done ==> i < 4 + |f| && mem[Slot(|mem|, h + i)] == Record(f)[i]
  }

  ghost predicate ProducerOk(d: Direction) {
    && (!d.pc.PIdle? && !d.pc.PEnd? ==> FrameOk(d.link, d.frame) && d.link.frameMax <= TO_HOST_FRAME_MAX)
    && (d.pc.PCopy? ==>
          && |d.ring.mem| > 0
          && d.log.h - d.log.t + RecordLen(|d.frame|) <= d.link.size
          && Copied(d.ring.mem, d.log.h, d.frame, d.pc.done))
    && (d.pc.PFence? ==>
          RecordLen(|d.frame|) <= d.log.h && Wraps(d.pc.oldHead, d.log.h - RecordLen(|d.frame|)))
  }

  ghost predicate ConsumerOk(d: Direction) {
    match d.cc
    case CLength(seen, frames, got) =>
      && 1 <= frames <= |d.log.flight|
      && Wraps(seen, d.log.t + Total(d.log.flight[..frames]))
      && |got| <= 4 && |d.log.flight[0]| < WORD && got == Record(d.log.flight[0])[..|got|]
    case CAlloc(len) => d.log.flight != [] && len == |d.log.flight[0]|
    case CFrame(len, got) => d.log.flight != [] && len == |d.log.flight[0]| && got <= d.log.flight[0]
    case CStoreTail(len, keep, got) =>
      d.log.flight != [] && len == |d.log.flight[0]| && (keep ==> got == d.log.flight[0]) && (!keep ==> d.link.drops)
    case CBad => false
    case _ => true
  }

  ghost predicate DataInv(d: Direction) {
    Counters(d.link, d.ring, d.log) && History(d.link, d.log) && ProducerOk(d) && ConsumerOk(d)
  }

  /** The 32-bit test for free space is the test on the unbounded counters. */
  lemma RoomIsFree(link: Link, r: Ring, log: Log)
    requires Counters(link, r, log)
    ensures Room(link.size, r.head, r.tail) == link.size - (log.h - log.t)
    ensures r.head == r.tail <==> log.flight == []
  {
    hide Holds, Record, Aligned;
    WrapKeepsDistance(r.head, r.tail, log.h, log.t);
    hide Wraps;
  }

  /** A position from a 32-bit counter plus an offset is the one of the unbounded counter. */
  lemma SlotOf(size: nat, w: u32, base: nat, i: nat)
    requires IsSize(size) && Wraps(w, base)
    ensures Slot(size, (w + i) % WORD) == Slot(size, base + i)
  {
    WrapsAdd(w, base, i);
    WrapKeepsSlot(size, (w + i) % WORD, base + i);
  }

  lemma TryKeeps(d: Direction)
    requires DataInv(d) && d.pc.PTry?
    ensures DataInv(Try(d))
  {
    hide Room, History, Holds, Total, RecordLen, Record, Select, Wraps, Aligned;
    RoomIsFree(d.link, d.ring, d.log);
  }

  lemma WriteByteKeeps(d: Direction, i: nat)
    requires DataInv(d) && CanWrite(d, i)
    ensures DataInv(WriteByte(d, i))
  {
    var d' := WriteByte(d, i);
    var q := Slot(|d.ring.mem|, d.log.h + i);
    assert d'.ring.mem == d.ring.mem[q := Record(d.frame)[i]] by {
      SlotOf(|d.ring.mem|, d.ring.head, d.log.h, i);
    }
    RecordLenBounds(|d.frame|);
    hide RecordLen, Record, Room, Slot, Wraps, Aligned;
    assert Counters(d'.link, d'.ring, d'.log) by {
      HoldsFrame(d.ring.mem, d.log.t, d.log.flight, d.log.h + i, Record(d.frame)[i]);
    }
    assert Copied(d'.ring.mem, d.log.h, d.frame, d'.pc.done) by {
      CopiedMore(d.ring.mem, d.log.h, d.frame, d.pc.done, i);
    }
    hide Counters, History, Copied;
  }

  lemma CopiedMore(mem: Bytes, h: nat, f: Bytes, done: set<nat>, i: nat)
    requires IsSize(|mem|) && RecordLen(|f|) <= |mem| && |f| < WORD && i < 4 + |f|
    requires Copied(mem, h, f, done)
    ensures Copied(mem[Slot(|mem|, h + i) := Record(f)[i]], h, f, done + {i})
  {
    forall j | j in done && j != i ensures Slot(|mem|, h + j) != Slot(|mem|, h + i) {
      if j < i {
        SlotsDiffer(|mem|, h + j, h + i);
      } else {
        SlotsDiffer(|mem|, h + i, h + j);
      }
    }
    hide Slot, Record;
  }

  lemma PublishHolds(mem: Bytes, log: Log, f: Bytes)
    requires |mem| > 0 && |f| < WORD && log.h == log.t + Total(log.flight) && Holds(mem, log.t, log.flight)
    requires forall i :: 0 <= i < 4 + |f| ==> mem[Slot(|mem|, log.h + i)] == Record(f)[i]
    ensures Holds(mem, log.t, log.flight + [f])
    ensures Total(log.flight + [f]) == Total(log.flight) + RecordLen(|f|)
  {
    hide Record, Holds, Slot;
    assert RecordAt(mem, log.t + Total(log.flight), f);
    HoldsAppend(mem, log.t, log.flight, f);
    TotalAppend(log.flight, [f]);
    TotalOne(f);
  }

  lemma PublishCounters(link: Link, r: Ring, log: Log, f: Bytes, head: u32)
    requires Counters(link, r, log) && FrameOk(link, f) && |f| < WORD
    requires log.h - log.t + RecordLen(|f|) <= link.size && head == (r.head + RecordLen(|f|)) % WORD
    requires forall i :: 0 <= i < 4 + |f| ==> r.mem[Slot(|r.mem|, log.h + i)] == Record(f)[i]
    ensures Counters(link, r.(head := head), log.(h := log.h + RecordLen(|f|), flight := log.flight + [f]))
  {
    hide Record, Holds, Slot, Wraps, Aligned, Total, RecordLen;
    PublishHolds(r.mem, log, f);
    WrapsAdd(r.head, log.h, RecordLen(|f|));
    RecordKeepsAligned(log.h, |f|);
    RecordLenBounds(|f|);
  }

  lemma PublishKeeps(d: Direction)
    requires DataInv(d) && CanPublish(d)
    ensures DataInv(Publish(d))
  {
    hide Holds, Total, Select, Record, RecordLen, Slot, Wraps, Aligned;
    var d' := Publish(d);
    var log, log' := d.log, d'.log;
    PublishCounters(d.link, d.ring, log, d.frame, d'.ring.head);
    hide Counters, Copied, CanPublish;
    Assoc(log.taken, log.flight, [d.frame]);
    if d.cc.CLength? {
      assert log'.flight[..d.cc.frames] == log.flight[..d.cc.frames];
    }
  }

  lemma LoadKeeps(d: Direction)
    requires DataInv(d) && d.cc.CLoad?
    ensures DataInv(Load(d))
  {
    RoomIsFree(d.link, d.ring, d.log);
    assert d.log.flight[..|d.log.flight|] == d.log.flight;
    hide Room, History, Record, Copied, Holds;
  }

  lemma ReadLengthKeeps(d: Direction)
    requires DataInv(d) && CanReadLength(d)
    ensures DataInv(ReadLength(d))
  {
    var k, r := |d.cc.got|, Record(d.log.flight[0]);
    assert ReadLength(d).cc.got == d.cc.got + [r[k]] by {
      SlotOf(d.link.size, d.ring.tail, d.log.t, k);
    }
    assert r[..k + 1] == r[..k] + [r[k]];
    hide Room, History, Record, Copied, Holds, Slot, Counters;
  }

  lemma FirstFits(link: Link, r: Ring, log: Log, seen: u32, frames: nat)
    requires Counters(link, r, log) && 1 <= frames <= |log.flight|
    ensures FrameOk(link, log.flight[0])
    ensures Wraps(seen, log.t + Total(log.flight[..frames])) ==> RecordLen(|log.flight[0]|) <= (seen - r.tail) % WORD
  {
    hide Holds, RecordLen, Wraps, Aligned;
    var some := log.flight[..frames];
    assert log.flight == some + log.flight[frames..];
    TotalAppend(some, log.flight[frames..]);
    if Wraps(seen, log.t + Total(some)) {
      WrapKeepsDistance(seen, r.tail, log.t + Total(some), log.t);
    }
  }

  lemma CheckLengthKeeps(d: Direction)
    requires DataInv(d) && CanCheckLength(d)
    ensures DataInv(CheckLength(d)) && CheckLength(d).cc == CAlloc(|d.log.flight[0]|)
  {
    hide Holds, Total, RecordLen, Copied, History, Wraps, Aligned;
    var f := d.log.flight[0];
    assert d.cc.got == Le32(|f|);
    Le32RoundTrip(|f|);
    FirstFits(d.link, d.ring, d.log, d.cc.seen, d.cc.frames);
    hide FromLe32, Record;
  }

  lemma ReadByteKeeps(d: Direction)
    requires DataInv(d) && CanReadByte(d)
    ensures DataInv(ReadByte(d))
  {
    var k, f := |d.cc.got|, d.log.flight[0];
    assert ReadByte(d).cc.got == d.cc.got + [f[k]] by {
      SlotOf(d.link.size, d.ring.tail, d.log.t, 4 + k);
      assert d.ring.mem[Slot(d.link.size, d.log.t + (4 + k))] == Record(f)[4 + k];
    }
    hide Room, History, Record, Copied, Holds, Slot, Counters;
  }

  lemma StoreTailCounters(link: Link, r: Ring, log: Log, tail: u32)
    requires Counters(link, r, log) && log.flight != []
    requires tail == (r.tail + RecordLen(|log.flight[0]|)) % WORD
    ensures Counters(link, r.(tail := tail),
                     log.(t := log.t + RecordLen(|log.flight[0]|), flight := log.flight[1..]))
  {
    hide RecordAt, Wraps, Aligned, RecordLen;
    RecordLenBounds(|log.flight[0]|);
    RecordKeepsAligned(log.t, |log.flight[0]|);
    WrapsAdd(r.tail, log.t, RecordLen(|log.flight[0]|));
  }

  lemma StoreTailKeeps(d: Direction)
    requires DataInv(d) && CanStoreTail(d)
    ensures DataInv(StoreTail(d))
  {
    hide Holds, Total, Record, RecordLen, Slot, Wraps, Aligned;
    var d' := StoreTail(d);
    var log, log' := d.log, d'.log;
    var f := log.flight[0];
    StoreTailCounters(d.link, d.ring, log, d'.ring.tail);
    hide Counters, Copied;
    assert log'.taken[..|log.taken|] == log.taken && log'.kept[..|log.kept|] == log.kept;
    Assoc(log.taken, [f], log.flight[1..]);
    assert [f] + log.flight[1..] == log.flight;
  }

  /** The producer stores no byte that the consumer can read: byte `i` of the record in the
      making is at another place than byte `j` of the readable region. */
  lemma NoSharedByte(d: Direction, i: nat, j: nat)
    requires DataInv(d) && d.pc.PCopy? && i < 4 + |d.frame| && j < d.log.h - d.log.t
    ensures Slot(d.link.size, (d.ring.head + i) % WORD) != Slot(d.link.size, (d.ring.tail + j) % WORD)
  {
    hide Holds, Record, RecordLen, Total, Slot, History, ConsumerOk, Wraps, Aligned, Copied;
    RecordLenBounds(|d.frame|);
    SlotOf(d.link.size, d.ring.head, d.log.h, i);
    SlotOf(d.link.size, d.ring.tail, d.log.t, j);
    SlotsDiffer(d.link.size, d.log.t + j, d.log.h + i);
  }

  /** The bytes that the consumer reads are in the readable region. */
  lemma ReadsInside(d: Direction)
    requires DataInv(d)
    ensures CanReadLength(d) ==> |d.cc.got| < d.log.h - d.log.t
    ensures CanReadByte(d) ==> 4 + |d.cc.got| < d.log.h - d.log.t
  {
    hide Holds, Record, History, ProducerOk, Wraps, Aligned;
    if d.log.flight != [] {
      RecordLenBounds(|d.log.flight[0]|);
    }
  }

  // ---- No lost wake-up: what every step keeps ----

  ghost predicate WillRing(d: Direction) {
    d.cc.CClearWait? || d.cc.CRing?
  }

  /** A sleeping consumer of a non-empty ring has a wake-up on its way (`woken`), or the
      producer will still ring. */
  ghost predicate FrameWake(d: Direction, woken: bool) {
    d.cc.CAsleep? && d.log.flight != [] ==> woken || d.kick || (d.pc.PFence? && d.pc.oldHead == d.ring.tail)
  }

  /** A producer that stopped with the frame `want` (`blocked`), or is in its second try,
      has WAIT set or a wake-up on its way (`woken`); without a wake-up, either the consumer
      still has its load of WAIT ahead, or the frame does not fit. */
  ghost predicate SpaceWake(d: Direction, blocked: bool, want: Bytes, woken: bool) {
    && (blocked || d.pc == PTry(true) ==> d.wait || woken || WillRing(d))
    && (blocked && !woken && !WillRing(d) ==>
          d.cc.CCheckWait? || RecordLen(|want|) > d.link.size - (d.log.h - d.log.t))
  }

  // ---- One step of a direction ----

  datatype Step =
    | DoTry | DoWriteByte(i: nat) | DoPublish | DoFence | DoSetWait
    | DoLoad | DoReadLength | DoCheckLength | DoAlloc(ok: bool) | DoReadByte | DoFinishFrame
    | DoStoreTail | DoCheckWait | DoClearWait

  ghost predicate Can(d: Direction, st: Step) {
    match st
    case DoTry => d.pc.PTry?
    case DoWriteByte(i) => CanWrite(d, i)
    case DoPublish => CanPublish(d)
    case DoFence => d.pc.PFence?
    case DoSetWait => d.pc.PSetWait?
    case DoLoad => d.cc.CLoad?
    case DoReadLength => CanReadLength(d)
    case DoCheckLength => CanCheckLength(d)
    case DoAlloc(_) => d.cc.CAlloc?
    case DoReadByte => CanReadByte(d)
    case DoFinishFrame => CanFinishFrame(d)
    case DoStoreTail => CanStoreTail(d)
    case DoCheckWait => d.cc.CCheckWait?
    case DoClearWait => d.cc.CClearWait?
  }

  ghost function Do(d: Direction, st: Step): Direction
    requires Can(d, st)
  {
    match st
    case DoTry => Try(d)
    case DoWriteByte(i) => WriteByte(d, i)
    case DoPublish => Publish(d)
    case DoFence => Fence(d)
    case DoSetWait => SetWait(d)
    case DoLoad => Load(d)
    case DoReadLength => ReadLength(d)
    case DoCheckLength => CheckLength(d)
    case DoAlloc(ok) => Alloc(d, ok)
    case DoReadByte => ReadByte(d)
    case DoFinishFrame => FinishFrame(d)
    case DoStoreTail => StoreTail(d)
    case DoCheckWait => CheckWait(d)
    case DoClearWait => ClearWait(d)
  }

  /** What a step does to the parts that only one side has. */
  lemma StepShape(d: Direction, st: Step)
    requires Can(d, st)
    ensures var d' := Do(d, st);
            && d'.link == d.link && d'.frame == d.frame
            && (d'.pc.PIdle? <==> d.pc.PIdle?) && (d'.pc.PEnd? <==> d.pc.PEnd?)
            && (OfProducer(st) ==> !d.pc.PIdle? && !d.pc.PGaveUp? && !d.pc.PDone? && !d.pc.PEnd?)
            && (!OfProducer(st) ==> d'.pc == d.pc)
            && (d'.kick == d.kick || st.DoFence?)
            && (st.DoFence? ==> d'.pc.PDone?)
  {
    hide Room, RecordLen, Slot, Record, BadLength, FromLe32;
  }

  lemma SmallStepKeeps(d: Direction, st: Step)
    requires DataInv(d) && Can(d, st)
    requires st.DoFence? || st.DoSetWait? || st.DoAlloc? || st.DoFinishFrame? || st.DoCheckWait? || st.DoClearWait?
    ensures DataInv(Do(d, st))
  {
    hide Counters, History, Copied, Record, RecordLen, Wraps, Total;
  }

  /** Every step of a direction keeps the bytes, the counters and the history right. */
  lemma StepKeeps(d: Direction, st: Step)
    requires DataInv(d) && Can(d, st)
    ensures DataInv(Do(d, st))
  {
    hide DataInv;
    match st
    case DoTry => TryKeeps(d);
    case DoWriteByte(i) => WriteByteKeeps(d, i);
    case DoPublish => PublishKeeps(d);
    case DoLoad => LoadKeeps(d);
    case DoReadLength => ReadLengthKeeps(d);
    case DoCheckLength => CheckLengthKeeps(d);
    case DoReadByte => ReadByteKeeps(d);
    case DoStoreTail => StoreTailKeeps(d);
    case _ => SmallStepKeeps(d, st);
  }

  lemma LoadOfHead(d: Direction)
    requires DataInv(d)
    ensures d.ring.head == d.ring.tail <==> d.log.flight == []
    ensures d.pc.PTry? && Try(d).pc.PGaveUp? ==>
              RecordLen(|d.frame|) > d.link.size - (d.log.h - d.log.t)
  {
    hide History, ProducerOk, ConsumerOk, Holds, Record;
    RoomIsFree(d.link, d.ring, d.log);
    hide Counters, Room;
  }

  /** The producer starts a try or ends, and the consumer starts over: no byte changes. */
  lemma RestartKeeps(d: Direction, d': Direction)
    requires DataInv(d) && d'.link == d.link && d'.ring == d.ring && d'.log == d.log
    requires (d'.pc == d.pc && d'.frame == d.frame) || d'.pc.PIdle? || d'.pc.PEnd? ||
             (d'.pc.PTry? && FrameOk(d.link, d'.frame))
    requires d'.cc == d.cc || d'.cc.CLoad?
    ensures DataInv(d')
  {
    hide History, Copied, Record, RecordLen, Wraps, Total, Holds;
  }

  ghost predicate OfProducer(st: Step) {
    st.DoTry? || st.DoWriteByte? || st.DoPublish? || st.DoFence? || st.DoSetWait?
  }

  /** A step of a direction, of either side, loses no wake-up.  `blocked`: the producer had
      stopped before the step.  The heart is DoFence: the load of TAIL after the store of HEAD
      sees each consumer that had read everything. */
  lemma ProducerWakes(d: Direction, st: Step, frameWoken: bool, spaceWoken: bool)
    requires DataInv(d) && Can(d, st) && OfProducer(st)
    requires FrameWake(d, frameWoken) && SpaceWake(d, false, [], spaceWoken)
    ensures FrameWake(Do(d, st), frameWoken)
    ensures SpaceWake(Do(d, st), Do(d, st).pc.PGaveUp?, d.frame, spaceWoken)
  {
    LoadOfHead(d);
    hide DataInv, RecordLen, Room, Record, Slot;
  }

  lemma ConsumerWakes(d: Direction, st: Step, blocked: bool, want: Bytes, frameWoken: bool, spaceWoken: bool)
    requires DataInv(d) && Can(d, st) && !OfProducer(st)
    requires FrameWake(d, frameWoken) && SpaceWake(d, blocked, want, spaceWoken)
    ensures FrameWake(Do(d, st), frameWoken) && SpaceWake(Do(d, st), blocked, want, spaceWoken)
  {
    LoadOfHead(d);
    hide DataInv, RecordLen, Room, Record, Slot, BadLength, FromLe32;
  }
}
