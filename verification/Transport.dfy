/** What holds in every run of the transport, from any start and over any interleaving. */
module Transport {
  import opened Words
  import opened RingLayout
  import opened RingDirection
  import opened TwoHarts
  import opened TransportRuns

  /** FIFO without loss, copy or corruption, from call to call.  The firmware has received a prefix
      of what Linux pushed, which is a prefix of the frames that callers wrote on Linux and the
      driver took.  Linux has received a prefix of the frames that callers wrote on the firmware, in
      order, without the ones whose memory allocation failed. */
  lemma FramesArriveInOrder(s: State, run: seq<Action>)
    requires Init(s) && ValidRun(s, run)
    ensures var d := After(s, run).toFw;
            && d.log.delivered == d.log.taken <= d.log.pushed
            && d.log.pushed <= After(s, run).host.accepted == Accepted(s, run, [])
    ensures var d := After(s, run).toHost;
            && d.log.taken <= d.log.pushed <= Given(run, [])
            && |d.log.kept| == |d.log.taken| && d.log.kept <= Answers(run, [])
            && d.log.delivered == Select(d.log.taken, d.log.kept)
            && (MemoryEnough(run) ==> d.log.delivered == d.log.taken)
  {
    hide ValidRun, After, Counters, ConsumerOk, ProducerOk, FrameWake, SpaceWake;
    hide Accepted, Given, Answers, MemoryEnough;
    RunInv(s, run);
    var e := After(s, run);
    SelectAll(e.toFw.log.taken, e.toFw.log.kept);
    AcceptedIsLogged(s, run);
    GivenIsPushed(s, run);
    assert s.toHost.log.pushed + Pending(s.toHost) == [];
    AnswersAreKept(s, run);
    assert s.toHost.log.kept + Answered(s.toHost.cc) == [];
    if MemoryEnough(run) {
      EnoughIsKept(run, []);
      assert forall i :: 0 <= i < |e.toHost.log.kept| ==> e.toHost.log.kept[i] == Answers(run, [])[i];
      SelectAll(e.toHost.log.taken, e.toHost.log.kept);
    }
  }

  /** One write more, on either side: Linux takes the frame itself, and last, exactly if no reset
      holds the queue and fewer than 256 frames wait. */
  lemma OneMoreFrame(s: State, run: seq<Action>, f: Bytes)
    requires Init(s) && ValidRun(s, run)
    ensures Ready(After(s, run), HostWrite(f)) ==>
              && ValidRun(s, run + [HostWrite(f)])
              && var host := After(s, run).host;
                 After(s, run + [HostWrite(f)]).host.accepted ==
                   if !Held(run, false) && |host.queue| < 256 then host.accepted + [f] else host.accepted
    ensures Ready(After(s, run), FwWrite(f)) ==>
              && ValidRun(s, run + [FwWrite(f)])
              && var d := After(s, run + [FwWrite(f)]).toHost;
                 d.log.pushed + Pending(d) == After(s, run).toHost.log.pushed + [f]
  {
    hide Next, Ready, Held, Accepted;
    AcceptedIsLogged(s, run);
    if Ready(After(s, run), HostWrite(f)) {
      RunsJoin(s, run, [HostWrite(f)]);
      AcceptedStep(After(s, run), HostWrite(f));
    }
    if Ready(After(s, run), FwWrite(f)) {
      RunsJoin(s, run, [FwWrite(f)]);
      GivenStep(After(s, run), FwWrite(f));
      WriteStartsIdle(After(s, run), f);
    }
  }

  lemma WriteStartsIdle(s: State, f: Bytes)
    requires Ready(s, FwWrite(f))
    ensures s.toHost.log.pushed + Pending(s.toHost) == s.toHost.log.pushed == Next(s, FwWrite(f)).toHost.log.pushed
  {
  }

  /** No side ever takes the branch "bad frame length". */
  lemma NoBadFrame(s: State, run: seq<Action>)
    requires Init(s) && ValidRun(s, run)
    ensures !After(s, run).toFw.cc.CBad? && !After(s, run).toHost.cc.CBad?
  {
    hide ValidRun, After, Counters, ProducerOk, FrameWake, SpaceWake;
    RunInv(s, run);
  }

  /** Where the producer stores byte `i` of its record, and where the consumer finds byte `j`. */
  function StoreSlot(d: Direction, size: nat, i: nat): nat
    requires size > 0
  {
    Slot(size, (d.ring.head + i) % WORD)
  }

  function ReadSlot(d: Direction, size: nat, j: nat): nat
    requires size > 0
  {
    Slot(size, (d.ring.tail + j) % WORD)
  }

  /** No byte of a record that is being stored shares a place with a byte that the other hart
      can read, in a ring of `size` bytes. */
  ghost predicate Separate(d: Direction, size: nat)
    requires size > 0
  {
    d.pc.PCopy? ==>
      forall i: nat, j: nat :: i < 4 + |d.frame| && j < d.log.h - d.log.t ==>
        StoreSlot(d, size, i) != ReadSlot(d, size, j)
  }

  lemma InvSeparates(d: Direction)
    requires DataInv(d) && d.link.size > 0
    ensures Separate(d, d.link.size)
  {
    hide DataInv, Slot;
    if d.pc.PCopy? {
      forall i: nat, j: nat | i < 4 + |d.frame| && j < d.log.h - d.log.t
        ensures StoreSlot(d, d.link.size, i) != ReadSlot(d, d.link.size, j)
      {
        NoSharedByte(d, i, j);
      }
    }
  }

  /** HEAD is at most the ring size after TAIL, and each of the two words is a multiple of 4. */
  ghost predicate Bounded(d: Direction, size: nat) {
    && d.log.t <= d.log.h <= d.log.t + size
    && d.ring.head == d.log.h % WORD && d.ring.tail == d.log.t % WORD
    && d.ring.head % 4 == 0 && d.ring.tail % 4 == 0
    && (d.ring.head - d.ring.tail) % WORD == d.log.h - d.log.t
  }

  lemma InvBounds(d: Direction)
    requires Counters(d.link, d.ring, d.log)
    ensures Bounded(d, d.link.size)
  {
    hide Holds, FrameOk, Wraps, Aligned;
    WrapKeepsDistance(d.ring.head, d.ring.tail, d.log.h, d.log.t);
    WrappedWord(d.ring.head, d.log.h);
    WrappedWord(d.ring.tail, d.log.t);
  }

  lemma WrappedWord(w: u32, n: nat)
    requires Wraps(w, n) && Aligned(n)
    ensures w == n % WORD && w % 4 == 0
  {
    assert n == n / WORD * WORD + n % WORD;
  }

  /** The producer and the consumer never touch the same byte: what is being stored is outside
      of the readable region, and what is being read is inside of it.  This region is never
      larger than the ring, and its ends keep their alignment. */
  lemma NoConcurrentAccess(s: State, run: seq<Action>)
    requires Init(s) && ValidRun(s, run)
    ensures Separate(After(s, run).toFw, TO_FW_SIZE) && Separate(After(s, run).toHost, TO_HOST_SIZE)
    ensures forall d :: d == After(s, run).toFw || d == After(s, run).toHost ==>
              && (CanReadLength(d) ==> |d.cc.got| < d.log.h - d.log.t)
              && (CanReadByte(d) ==> 4 + |d.cc.got| < d.log.h - d.log.t)
    ensures Bounded(After(s, run).toFw, TO_FW_SIZE) && Bounded(After(s, run).toHost, TO_HOST_SIZE)
  {
    hide ValidRun, After, FrameWake, SpaceWake, Separate, History, ProducerOk, ConsumerOk, Holds;
    var e := After(s, run);
    RunInv(s, run);
    InvSeparates(e.toFw);
    InvSeparates(e.toHost);
    InvBounds(e.toFw);
    InvBounds(e.toHost);
    ReadsInside(e.toFw);
    ReadsInside(e.toHost);
  }

  /** A sleeping consumer of a ring with frames is always woken. */
  lemma NoLostFrame(s: State, run: seq<Action>)
    requires Init(s) && ValidRun(s, run)
    ensures var e := After(s, run);
            && (e.toFw.cc.CAsleep? && e.toFw.log.flight != [] ==>
                  FwRxWoken(e.fw) || (e.toFw.kick && !e.toFw.pc.PIdle?) ||
                  (e.toFw.pc.PFence? && e.toFw.pc.oldHead == e.toFw.ring.tail))
            && (e.toHost.cc.CAsleep? && e.toHost.log.flight != [] ==>
                  HostRxWoken(e.host) || (e.toHost.kick && e.toHost.pc.PDone?) ||
                  (e.toHost.pc.PFence? && e.toHost.pc.oldHead == e.toHost.ring.tail))
  {
    hide ValidRun, After, DataInv, QueueOk, FlowOk;
    RunInv(s, run);
  }

  /** No producer waits for space that is there: a stopped producer whose frame fits has a
      wake-up on its way, or WAIT is set and the consumer still has its load of WAIT ahead. */
  lemma NoLostSpace(s: State, run: seq<Action>)
    requires Init(s) && ValidRun(s, run)
    ensures var e := After(s, run);
            && (HostBlocked(e.host, e.toFw.pc) &&
                RecordLen(|e.host.queue[0]|) <= TO_FW_SIZE - (e.toFw.log.h - e.toFw.log.t) ==>
                  HostTxWoken(e.host) || WillRing(e.toFw) || (e.toFw.wait && e.toFw.cc.CCheckWait?))
            && (e.toHost.pc.PGaveUp? &&
                RecordLen(|e.toHost.frame|) <= TO_HOST_SIZE - (e.toHost.log.h - e.toHost.log.t) ==>
                  FwSpaceWoken(e.fw) || WillRing(e.toHost) || (e.toHost.wait && e.toHost.cc.CCheckWait?))
  {
    hide ValidRun, After, DataInv, QueueOk, FlowOk, RecordLen;
    RunInv(s, run);
  }

  /** The transmit queue is bounded, and the net queues stop and start with it.  Outside of a flush
      it holds the accepted frames that are not pushed. */
  lemma QueueIsBounded(s: State, run: seq<Action>)
    requires Init(s) && ValidRun(s, run)
    ensures var host, pc := After(s, run).host, After(s, run).toFw.pc;
            && |host.queue| <= TX_QUEUE_MAX
            && (pc.PIdle? ==> host.accepted == After(s, run).toFw.log.pushed + host.queue)
            && (|host.queue| >= TX_PAUSE && pc.PIdle? ==> host.paused)
            && (host.paused && !host.quiesced && pc.PIdle? ==>
                  |host.queue| > TX_RESUME || host.txWork || host.control.Resuming?)
  {
    hide ValidRun, After, DataInv, FrameWake, SpaceWake;
    RunInv(s, run);
  }

  /** A step that the system can take by itself: no new frame, no timeout, no reset. */
  ghost predicate Internal(a: Action) {
    !a.HostWrite? && !a.FwWrite? && !a.FwTimeout? && a != FwSpaceTake(true) && !a.Quiesce? && !a.Reinit?
  }

  ghost predicate AtRest(s: State) {
    forall a :: Internal(a) ==> !Ready(s, a)
  }

  lemma ProducerAtRest(d: Direction)
    requires forall st :: !Can(d, st)
    requires |d.ring.mem| > 0 && (d.pc.PCopy? ==> |d.frame| < WORD - 4)
    ensures d.pc.PIdle? || d.pc.PGaveUp? || d.pc.PDone? || d.pc.PEnd?
  {
    assert !Can(d, DoTry) && !Can(d, DoFence) && !Can(d, DoSetWait);
    if d.pc.PCopy? {
      forall i | 0 <= i < 4 + |d.frame| ensures i in d.pc.done {
        assert !Can(d, DoWriteByte(i));
      }
      assert Can(d, DoPublish);
      assert false;
    }
  }

  lemma ConsumerAtRest(d: Direction)
    requires ConsumerOk(d) && |d.ring.mem| > 0 && forall st :: !Can(d, st)
    ensures d.cc.CAsleep? || d.cc.CRing?
  {
    hide Record, Wraps, Total;
    assert !Can(d, DoLoad) && !Can(d, DoReadLength) && !Can(d, DoCheckLength) && !Can(d, DoAlloc(true));
    assert !Can(d, DoReadByte) && !Can(d, DoFinishFrame) && !Can(d, DoStoreTail);
    assert !Can(d, DoCheckWait) && !Can(d, DoClearWait);
  }

  lemma DirectionAtRest(d: Direction)
    requires DataInv(d) && forall st :: !Can(d, st)
    ensures d.pc.PIdle? || d.pc.PGaveUp? || d.pc.PDone? || d.pc.PEnd?
    ensures d.cc.CAsleep? || d.cc.CRing?
  {
    hide History, Holds, Record, Copied, RecordLen, Wraps, Total, Aligned, Can;
    ProducerAtRest(d);
    ConsumerAtRest(d);
  }

  lemma LongestFits(d: Direction, f: Bytes)
    requires DataInv(d) && d.log.flight == [] && FrameOk(d.link, f)
    ensures RecordLen(|f|) <= d.link.size - (d.log.h - d.log.t)
  {
    hide History, ProducerOk, ConsumerOk, Holds, Wraps, Aligned;
    RecordLenBounds(|f|);
  }

  lemma NotReady(s: State, a: Action)
    requires AtRest(s) && Internal(a)
    ensures !Ready(s, a)
  {
    hide Ready;
  }

  lemma RestIsIdle(e: State)
    requires Inv(e) && AtRest(e)
    ensures e.toFw.pc.PIdle? && e.toFw.cc.CAsleep? && e.toHost.cc.CAsleep?
    ensures e.toHost.pc.PIdle? || e.toHost.pc.PGaveUp?
  {
    hide DataInv, Can, FrameOk, FrameWake, SpaceWake, FlowOk, AtRest;
    forall st ensures !Can(e.toFw, st) && !Can(e.toHost, st) {
      NotReady(e, ToFw(st));
      NotReady(e, ToHost(st));
    }
    DirectionAtRest(e.toFw);
    DirectionAtRest(e.toHost);
    NotReady(e, HostUnlink);
    NotReady(e, HostFinish);
    NotReady(e, FwDone);
    NotReady(e, FwRing);
    NotReady(e, HostRing);
  }

  lemma RestHasNoWakeUp(e: State)
    requires AtRest(e) && e.toFw.pc.PIdle? && e.toFw.cc.CAsleep? && e.toHost.cc.CAsleep?
    ensures !HostRxWoken(e.host) && !HostTxWoken(e.host) && !FwRxWoken(e.fw) && !e.host.control.Resuming?
    ensures e.toHost.pc.PGaveUp? ==> !FwSpaceWoken(e.fw)
  {
    hide AtRest, Can, FrameOk;
    NotReady(e, IrqEnter);
    NotReady(e, IrqRx);
    NotReady(e, IrqTx);
    NotReady(e, HostTxWork);
    NotReady(e, HostRxWork);
    NotReady(e, ScheduleTxWork);
    NotReady(e, IsrEnter);
    NotReady(e, IsrRx);
    NotReady(e, IsrSpace);
    NotReady(e, FwRxTake);
    NotReady(e, FwSpaceTake(false));
  }

  /** No deadlock: when the system cannot take a step by itself, everything has arrived.  Both
      rings are empty, no producer waits, the queue of Linux is empty unless a reset holds it,
      and the net queues run. */
  lemma AtRestAllIsDelivered(s: State, run: seq<Action>)
    requires Init(s) && ValidRun(s, run) && AtRest(After(s, run))
    ensures var e := After(s, run);
            && e.toFw.log.taken == e.toFw.log.pushed && e.toHost.log.taken == e.toHost.log.pushed
            && e.toFw.log.delivered == e.toFw.log.pushed
            && e.toHost.pc.PIdle?
            && (!e.host.quiesced ==> e.host.queue == [] && !e.host.paused && e.toFw.log.delivered == e.host.accepted)
  {
    hide ValidRun, After;
    var e := After(s, run);
    RunInv(s, run);
    RestIsIdle(e);
    hide DataInv, QueueOk, FrameWake, SpaceWake;
    RestHasNoWakeUp(e);
    hide AtRest;
    RestIsEmpty(e);
    hide FrameWake, SpaceWake, Counters, ProducerOk, ConsumerOk;
    SelectAll(e.toFw.log.taken, e.toFw.log.kept);
  }

  lemma RestIsEmpty(e: State)
    requires Inv(e)
    requires e.toFw.pc.PIdle? && e.toFw.cc.CAsleep? && e.toHost.cc.CAsleep?
    requires e.toHost.pc.PIdle? || (e.toHost.pc.PGaveUp? && !FwSpaceWoken(e.fw))
    requires !HostRxWoken(e.host) && !HostTxWoken(e.host) && !FwRxWoken(e.fw)
    ensures e.toFw.log.flight == [] && e.toHost.log.flight == [] && e.toHost.pc.PIdle?
    ensures !e.host.quiesced ==> e.host.queue == []
  {
    assert e.toHost.pc.PGaveUp? ==> FrameOk(e.toHost.link, e.toHost.frame);
    hide DataInv, FlowOk, RecordLen, FrameOk;
    if e.toHost.pc.PGaveUp? {
      LongestFits(e.toHost, e.toHost.frame);
    }
    if !e.host.quiesced && e.host.queue != [] {
      LongestFits(e.toFw, e.host.queue[0]);
    }
  }
}
