/**
 The transport always gets to the end of its work: each step that it takes by itself, with memory
 for the frames, makes a measure of its state smaller.  So there are no endless internal runs, and
 one that cannot go on has delivered everything.
 */
module Progress {
  import opened Words
  import opened RingLayout
  import opened RingDirection
  import opened TwoHarts
  import opened Transport
  import opened TransportRuns

  // ---- The measure ----

  /** More than the steps of one frame, on one side. */
  const UNIT: nat := 0x1_0000

  /** A semaphore or a work item that wakes a consumer, the one that wakes the producer of the
      firmware, and the transmit work with its flush of a full queue. */
  const WAKE: nat := 3 * UNIT
  const RETRY: nat := UNIT
  const FLUSH: nat := 300 * UNIT

  /** A doorbell, with all that its interrupt handler sets going. */
  const BELL: nat := 400 * UNIT

  /** A frame in flight and a frame before its push, with the doorbells that they cause. */
  const IN_FLIGHT: nat := 500 * UNIT
  const UNPUSHED: nat := 1000 * UNIT

  /** The places below `n` that are not done. */
  function Missing(n: nat, done: set<nat>): (m: nat)
    ensures m <= n
  {
    if n == 0 then 0 else Missing(n - 1, done) + if n - 1 in done then 0 else 1
  }

  lemma {:induction false} MissingLess(n: nat, done: set<nat>, i: nat)
    requires i !in done
    ensures Missing(n, done + {i}) == Missing(n, done) - if i < n then 1 else 0
  {
    if n > 0 {
      MissingLess(n - 1, done, i);
    }
  }

  /** What the producer still does with its frame. */
  function Attempt(pc: ProducerPc, n: nat): nat {
    match pc
    case PIdle => 0
    case PEnd => 1
    case PGaveUp => 1
    case PDone => 3
    case PFence(_) => 5 + BELL
    case PCopy(done) => 6 + Missing(4 + n, done)
    case PTry(second) => (if second then 11 else 13) + n
    case PSetWait => 12 + n
  }

  predicate Active(pc: ProducerPc) {
    pc.PTry? || pc.PCopy? || pc.PFence? || pc.PSetWait? || pc.PDone?
  }

  /** The frames that are not pushed, of `n` in the queue. */
  function Unpushed(pc: ProducerPc, n: nat): nat {
    if n > 0 && (pc.PFence? || pc.PDone?) then n - 1 else n
  }

  function ProducerCost(d: Direction, n: nat): nat {
    UNPUSHED * Unpushed(d.pc, n) + (if Active(d.pc) && n > 0 then UNIT * (n - 1) else 0)
    + Attempt(d.pc, |d.frame|) + if d.kick then BELL + 1 else 0
  }

  /** What the consumer still does with the frame that it reads, or after its wake-up. */
  function Reading(cc: ConsumerPc): nat {
    match cc
    case CAsleep => 0
    case CBad => 0
    case CLoad => 2 * UNIT
    case CLength(_, _, got) => UNIT + 10 + if |got| <= 4 then 4 - |got| else 0
    case CAlloc(_) => UNIT + 5
    case CFrame(len, got) => 4 + if |got| <= len then len - |got| else 0
    case CStoreTail(_, _, _) => 3
    case CCheckWait => 2 * UNIT + BELL + 3
    case CClearWait => 2 * UNIT + BELL + 2
    case CRing => 2 * UNIT + BELL + 1
  }

  function ConsumerCost(d: Direction): nat {
    IN_FLIGHT * |d.log.flight| + Reading(d.cc)
  }

  function HostCost(host: Host): nat {
    (if host.doorbell then BELL else 0)
    + (match host.irq case IrqIdle => 0 case IrqCleared => WAKE + FLUSH + 2 case IrqRxQueued => FLUSH + 1)
    + (if host.rxWork then WAKE else 0) + (if host.txWork then FLUSH else 0)
    + match host.control case Steady => 0 case Quiesced => 2 case Cancelled => 1 case Resuming => FLUSH + 1
  }

  function FirmwareCost(fw: Firmware): nat {
    (if fw.doorbell then BELL else 0)
    + (match fw.isr case IsrIdle => 0 case IsrCleared => WAKE + RETRY + 2 case IsrRxGiven => RETRY + 1)
    + (if fw.rxSem then WAKE else 0) + if fw.spaceSem then RETRY else 0
  }

  /** The firmware pushes one frame at a time. */
  function OneFrame(pc: ProducerPc): nat {
    if pc.PIdle? then 0 else 1
  }

  function Measure(s: State): nat {
    ProducerCost(s.toFw, |s.host.queue|) + ConsumerCost(s.toFw)
    + ProducerCost(s.toHost, OneFrame(s.toHost.pc)) + ConsumerCost(s.toHost)
    + HostCost(s.host) + FirmwareCost(s.fw)
  }

  // ---- The steps of one direction ----

  lemma CopyDecreases(d: Direction, i: nat)
    requires CanWrite(d, i)
    ensures Attempt(WriteByte(d, i).pc, |d.frame|) < Attempt(d.pc, |d.frame|)
  {
    hide Record, Slot;
    MissingLess(4 + |d.frame|, d.pc.done, i);
  }

  lemma ProducerDecreases(d: Direction, st: Step, n: nat)
    requires Can(d, st) && OfProducer(st) && n > 0
    ensures var d' := Do(d, st);
            ProducerCost(d', n) + ConsumerCost(d') < ProducerCost(d, n) + ConsumerCost(d)
    ensures OneFrame(Do(d, st).pc) == OneFrame(d.pc)
  {
    hide RecordLen, Room, Record, Slot, Missing;
    match st
    case DoWriteByte(i) => CopyDecreases(d, i);
    case DoTry => NothingCopied(4 + |d.frame|);
    case _ =>
  }

  lemma NothingCopied(n: nat)
    ensures Missing(n, {}) <= n
  {
  }

  lemma ConsumerDecreases(d: Direction, st: Step)
    requires Can(d, st) && !OfProducer(st) && ConsumerOk(d) && Counters(d.link, d.ring, d.log)
    requires st == DoAlloc(false) ==> d.link.drops
    ensures var d' := Do(d, st);
            ConsumerCost(d') < ConsumerCost(d) && d'.pc == d.pc && d'.kick == d.kick && d'.frame == d.frame
  {
    hide RecordLen, Record, Slot, BadLength, FromLe32, Wraps, Total, Holds, Aligned, Counters;
    if d.log.flight != [] {
      FrameIsShort(d);
    }
  }

  lemma FrameIsShort(d: Direction)
    requires Counters(d.link, d.ring, d.log) && d.log.flight != []
    ensures |d.log.flight[0]| < UNIT
  {
    hide Wraps, Total, Holds, Aligned;
    assert d.log.flight[0] in d.log.flight;
  }

  // ---- The other steps ----

  /** A step that the transport takes by itself, with memory for the frames of the firmware. */
  ghost predicate Works(a: Action) {
    Internal(a) && a != ToFw(DoAlloc(false))
  }

  lemma DirectionDecreases(s: State, a: Action)
    requires Inv(s) && Ready(s, a) && Works(a) && (a.ToFw? || a.ToHost?)
    ensures Measure(Next(s, a)) < Measure(s)
  {
    hide Can, Do, ProducerCost, ConsumerCost, HostCost, FirmwareCost, OfProducer;
    hide FrameWake, SpaceWake, FlowOk, Counters, History, ConsumerOk, ProducerOk;
    if a.ToFw? {
      if OfProducer(a.st) {
        ProducerHasFrame(s.toFw, a.st);
        ProducerDecreases(s.toFw, a.st, |s.host.queue|);
      } else {
        ConsumerDecreases(s.toFw, a.st);
        SameProducer(s.toFw, Do(s.toFw, a.st), |s.host.queue|);
      }
    } else if OfProducer(a.st) {
      ProducerHasFrame(s.toHost, a.st);
      ProducerDecreases(s.toHost, a.st, OneFrame(s.toHost.pc));
    } else {
      ConsumerDecreases(s.toHost, a.st);
      SameProducer(s.toHost, Do(s.toHost, a.st), OneFrame(s.toHost.pc));
    }
  }

  lemma ProducerHasFrame(d: Direction, st: Step)
    requires Can(d, st) && OfProducer(st)
    ensures !d.pc.PIdle? && !d.pc.PEnd?
  {
  }

  lemma SameProducer(d: Direction, d': Direction, n: nat)
    requires d'.pc == d.pc && d'.kick == d.kick && d'.frame == d.frame
    ensures ProducerCost(d', n) == ProducerCost(d, n)
  {
  }

  lemma SameConsumer(d: Direction, d': Direction)
    requires d'.cc == d.cc && d'.log == d.log
    ensures ConsumerCost(d') == ConsumerCost(d)
  {
  }

  /** From one frame of a flush to the next one, or to its end. */
  lemma NextFrameCost(d: Direction, d': Direction, n: nat)
    requires d.pc.PDone? && d'.kick == d.kick && n > 0
    requires if n > 1 then d'.pc == PTry(false) && |d'.frame| < UNIT / 2 else d'.pc.PEnd?
    ensures ProducerCost(d', n - 1) < ProducerCost(d, n)
  {
  }

  lemma FirstFrameCost(d: Direction, d': Direction, n: nat)
    requires d.pc.PIdle? && d'.kick == d.kick && n <= TX_QUEUE_MAX
    requires if n > 0 then d'.pc == PTry(false) && |d'.frame| < UNIT / 2 else d'.pc.PEnd?
    ensures ProducerCost(d', n) < ProducerCost(d, n) + FLUSH
  {
  }

  lemma QueueIsFree(host: Host, q: seq<Bytes>)
    ensures HostCost(host.(queue := q)) == HostCost(host)
  {
  }

  lemma WorkIsFlush(host: Host)
    requires host.txWork
    ensures HostCost(host.(txWork := false, inWrite := false)) == HostCost(host) - FLUSH
  {
  }

  lemma FlushStarts(s: State)
    requires QueueOk(s.host, s.toFw.pc, s.toFw.frame, s.toFw.log.pushed) && Ready(s, HostTxWork)
    ensures Measure(Next(s, HostTxWork)) < Measure(s)
  {
    hide ConsumerCost, ProducerCost, HostCost, FirmwareCost;
    var s' := Next(s, HostTxWork);
    SameConsumer(s.toFw, s'.toFw);
    WorkIsFlush(s.host);
    if !s.host.quiesced {
      if s.host.queue != [] {
        assert s.host.queue[0] in s.host.queue;
      }
      FirstFrameCost(s.toFw, s'.toFw, |s.host.queue|);
    }
  }

  lemma FlushGoesOn(s: State)
    requires QueueOk(s.host, s.toFw.pc, s.toFw.frame, s.toFw.log.pushed) && Ready(s, HostUnlink)
    ensures Measure(Next(s, HostUnlink)) < Measure(s)
  {
    hide ConsumerCost, ProducerCost, HostCost, FirmwareCost;
    var s' := Next(s, HostUnlink);
    SameConsumer(s.toFw, s'.toFw);
    QueueIsFree(s.host, s.host.queue[1..]);
    if |s.host.queue| > 1 {
      assert s.host.queue[1] in s.host.queue;
    }
    NextFrameCost(s.toFw, s'.toFw, |s.host.queue|);
  }

  lemma FlushEnds(s: State)
    requires Ready(s, HostFinish)
    ensures Measure(Next(s, HostFinish)) < Measure(s)
  {
    hide ConsumerCost;
    SameConsumer(s.toFw, Next(s, HostFinish).toFw);
  }

  lemma HostInterruptDecreases(s: State, a: Action)
    requires Ready(s, a) && (a.IrqEnter? || a.IrqRx? || a.IrqTx?)
    ensures Measure(Next(s, a)) < Measure(s)
  {
    hide ProducerCost, ConsumerCost;
  }

  lemma HostWakes(s: State)
    requires Ready(s, HostRxWork)
    ensures Measure(Next(s, HostRxWork)) < Measure(s)
  {
    hide ProducerCost, FirmwareCost;
    SameProducer(s.toHost, Next(s, HostRxWork).toHost, OneFrame(s.toHost.pc));
  }

  lemma HostRings(s: State)
    requires Ready(s, HostRing)
    ensures Measure(Next(s, HostRing)) < Measure(s)
  {
    hide ProducerCost, HostCost;
    SameProducer(s.toHost, Next(s, HostRing).toHost, OneFrame(s.toHost.pc));
  }

  lemma PurgeCost(d: Direction, n: nat)
    requires d.pc.PIdle?
    ensures ProducerCost(d, 0) <= ProducerCost(d, n)
  {
  }

  lemma ControlDecreases(s: State, a: Action)
    requires Ready(s, a) && (a.CancelTxWork? || a.Purge? || a.ScheduleTxWork?)
    ensures Measure(Next(s, a)) < Measure(s)
  {
    hide ConsumerCost, ProducerCost, FirmwareCost;
    if a.Purge? {
      PurgeCost(s.toFw, |s.host.queue|);
    }
  }

  lemma FirmwareInterruptDecreases(s: State, a: Action)
    requires Ready(s, a) && (a.IsrEnter? || a.IsrRx? || a.IsrSpace?)
    ensures Measure(Next(s, a)) < Measure(s)
  {
    hide ProducerCost, ConsumerCost;
  }

  lemma FirmwareWakes(s: State)
    requires Ready(s, FwRxTake)
    ensures Measure(Next(s, FwRxTake)) < Measure(s)
  {
    hide ProducerCost, HostCost;
    SameProducer(s.toFw, Next(s, FwRxTake).toFw, |s.host.queue|);
  }

  lemma FirmwareRings(s: State)
    requires Ready(s, FwRing)
    ensures Measure(Next(s, FwRing)) < Measure(s)
  {
    hide ProducerCost, FirmwareCost;
    SameProducer(s.toFw, Next(s, FwRing).toFw, |s.host.queue|);
  }

  lemma FirmwareSent(s: State)
    requires Ready(s, FwDone)
    ensures Measure(Next(s, FwDone)) < Measure(s)
  {
    hide ConsumerCost, FirmwareCost;
    SameConsumer(s.toHost, Next(s, FwDone).toHost);
  }

  lemma FirmwareRetries(s: State)
    requires ProducerOk(s.toHost) && s.toHost.link == TO_HOST && Ready(s, FwSpaceTake(false))
    ensures Measure(Next(s, FwSpaceTake(false))) < Measure(s)
  {
    hide ConsumerCost, HostCost;
    SameConsumer(s.toHost, Next(s, FwSpaceTake(false)).toHost);
  }

  /** Each step that works makes the measure smaller. */
  lemma WorkDecreases(s: State, a: Action)
    requires Inv(s) && Ready(s, a) && Works(a)
    ensures Measure(Next(s, a)) < Measure(s)
  {
    hide Next, Ready, Measure, QueueOk, FlowOk, FrameWake, SpaceWake, Counters, History, ProducerOk, ConsumerOk;
    match a
    case ToFw(_) => DirectionDecreases(s, a);
    case ToHost(_) => DirectionDecreases(s, a);
    case HostTxWork => FlushStarts(s);
    case HostUnlink => FlushGoesOn(s);
    case HostFinish => FlushEnds(s);
    case HostRxWork => HostWakes(s);
    case HostRing => HostRings(s);
    case FwRxTake => FirmwareWakes(s);
    case FwRing => FirmwareRings(s);
    case FwDone => FirmwareSent(s);
    case FwSpaceTake(_) => FirmwareRetries(s);
    case _ =>
      if a.IrqEnter? || a.IrqRx? || a.IrqTx? {
        HostInterruptDecreases(s, a);
      } else if a.IsrEnter? || a.IsrRx? || a.IsrSpace? {
        FirmwareInterruptDecreases(s, a);
      } else {
        ControlDecreases(s, a);
      }
  }

  // ---- Runs ----

  ghost predicate AllWork(run: seq<Action>) {
    forall i :: 0 <= i < |run| ==> Works(run[i])
  }

  /** No endless internal run: from each state that the transport can reach, a run of its own steps
      has at most as many steps as the measure says. */
  lemma {:induction false} InternalRunsEnd(s: State, run: seq<Action>)
    requires Inv(s) && ValidRun(s, run) && AllWork(run)
    ensures |run| + Measure(After(s, run)) <= Measure(s)
    decreases |run|
  {
    hide Inv, Next, Ready, Measure, Works;
    if run != [] {
      assert Works(run[0]);
      WorkDecreases(s, run[0]);
      StepKeepsInv(s, run[0]);
      InternalRunsEnd(Next(s, run[0]), run[1..]);
    }
  }

  /** Without a step that works, the transport is at rest: where the firmware can fail to get
      memory, it can also get it. */
  lemma NoWorkIsRest(s: State)
    requires forall a :: Works(a) ==> !Ready(s, a)
    ensures AtRest(s)
  {
    forall a | Internal(a) ensures !Ready(s, a) {
      if a == ToFw(DoAlloc(false)) {
        assert Works(ToFw(DoAlloc(true)));
      }
    }
  }

  /** Liveness: after any run `first` from the start, the transport that works by itself stops, after
      at most as many steps as the measure says.  Then the firmware has exactly the frames that
      callers wrote on Linux, and Linux has, with memory for them, those written on the firmware. */
  lemma EverythingArrives(s: State, first: seq<Action>, run: seq<Action>)
    requires Init(s) && ValidRun(s, first) && ValidRun(After(s, first), run) && AllWork(run)
    ensures ValidRun(s, first + run) && After(s, first + run) == After(After(s, first), run)
    ensures |run| <= Measure(After(s, first))
    ensures var e := After(s, first + run);
            (forall a :: Works(a) ==> !Ready(e, a)) ==>
              && e.toFw.log.taken == e.toFw.log.pushed && e.toHost.log.taken == e.toHost.log.pushed
              && e.toHost.pc.PIdle? && e.toHost.log.pushed == Given(first + run, [])
              && e.toHost.log.kept == Answers(first + run, [])
              && (MemoryEnough(first + run) ==> e.toHost.log.delivered == e.toHost.log.pushed)
              && (!e.host.quiesced ==>
                    && e.host.queue == [] && !e.host.paused
                    && e.toFw.log.delivered == Accepted(s, first + run, []))
  {
    hide ValidRun, After, Inv, Measure, Works, AllWork, Ready, Accepted, Given, Answers, MemoryEnough, AtRest;
    RunInv(s, first);
    InternalRunsEnd(After(s, first), run);
    RunsJoin(s, first, run);
    var e := After(s, first + run);
    if forall a :: Works(a) ==> !Ready(e, a) {
      NoWorkIsRest(e);
      AtRestAllIsDelivered(s, first + run);
      FramesArriveInOrder(s, first + run);
      AllIsGiven(s, first + run);
    }
  }

  /** At rest nothing of the firmware is half sent or half received. */
  lemma AllIsGiven(s: State, run: seq<Action>)
    requires Init(s) && ValidRun(s, run) && AtRest(After(s, run))
    ensures After(s, run).toHost.log.pushed == Given(run, [])
    ensures After(s, run).toHost.log.kept == Answers(run, [])
  {
    hide ValidRun, After, Inv, AtRest, Given, Answers;
    RunInv(s, run);
    RestIsIdle(After(s, run));
    AtRestAllIsDelivered(s, run);
    GivenIsPushed(s, run);
    assert s.toHost.log.pushed + Pending(s.toHost) == [];
    AnswersAreKept(s, run);
    assert s.toHost.log.kept + Answered(s.toHost.cc) == [];
  }

  /** And such a run is always there, with memory for each frame. */
  lemma {:induction false} SomeRunDelivers(s: State) returns (run: seq<Action>)
    requires Inv(s)
    ensures ValidRun(s, run) && AllWork(run) && MemoryEnough(run) && AtRest(After(s, run))
    decreases Measure(s)
  {
    hide Inv, Next, Ready, Measure, Works, AtRest;
    if b :| Works(b) && Ready(s, b) {
      var a := WithMemory(s, b);
      WorkDecreases(s, a);
      StepKeepsInv(s, a);
      var more := SomeRunDelivers(Next(s, a));
      run := [a] + more;
      assert run[1..] == more;
    } else {
      NoWorkIsRest(s);
      run := [];
    }
  }

  lemma WithMemory(s: State, a: Action) returns (b: Action)
    requires Works(a) && Ready(s, a)
    ensures Works(b) && Ready(s, b) && b != ToHost(DoAlloc(false))
  {
    b := if a == ToHost(DoAlloc(false)) then ToHost(DoAlloc(true)) else a;
  }

  // ---- One frame, from its write to its delivery ----

  lemma {:induction false} WorkSendsNothing(s: State, run: seq<Action>, frames: seq<Bytes>)
    requires Inv(s) && ValidRun(s, run) && AllWork(run) && !s.host.quiesced
    ensures Accepted(s, run, frames) == frames && !Held(run, false)
    decreases |run|
  {
    hide Inv, Next, Ready, Takes;
    if run != [] {
      assert Works(run[0]);
      StepKeepsInv(s, run[0]);
      AcceptedStep(s, run[0]);
      NoPurge(s, run[0]);
      WorkSendsNothing(Next(s, run[0]), run[1..], frames);
    }
  }

  lemma NoPurge(s: State, a: Action)
    requires Inv(s) && Ready(s, a) && !s.host.quiesced
    ensures !a.Purge?
  {
    hide DataInv, FlowOk, FrameWake, SpaceWake, ToHostInv;
  }

  /** The way of a frame to the firmware: whenever Linux writes a legal frame, outside of a flush and
      while the driver takes frames, the transport can go on by itself until the firmware has all
      frames that were accepted before, and then this one. */
  lemma HostFrameArrives(s: State, first: seq<Action>, f: Bytes) returns (run: seq<Action>)
    requires Init(s) && ValidRun(s, first)
    requires FrameOk(TO_FW, f) && After(s, first).toFw.pc.PIdle? && Takes(After(s, first).host)
    ensures ValidRun(s, first + [HostWrite(f)] + run) && AllWork(run) && MemoryEnough(run)
    ensures var e := After(s, first + [HostWrite(f)] + run);
            AtRest(e) && e.toFw.log.delivered == After(s, first).host.accepted + [f]
  {
    hide Inv, Next, Takes, AllWork, MemoryEnough, AtRest, Accepted, Given;
    var s1 := After(s, first);
    RunInv(s, first);
    assert Ready(s1, HostWrite(f));
    hide Ready;
    RunsJoin(s, first, [HostWrite(f)]);
    StepKeepsInv(s1, HostWrite(f));
    AcceptedStep(s1, HostWrite(f));
    var s2 := Next(s1, HostWrite(f));
    assert s2 == After(s, first + [HostWrite(f)]);
    run := SomeRunDelivers(s2);
    RunsJoin(s, first + [HostWrite(f)], run);
    assert !s1.host.quiesced by { TakesUnheld(s1.host); }
    WorkSendsNothing(s2, run, s2.host.accepted);
    AcceptedIsLogged(s2, run);
    AtRestAllIsDelivered(s, first + [HostWrite(f)] + run);
  }

  lemma TakesUnheld(host: Host)
    requires Takes(host)
    ensures !host.quiesced
  {
  }

  /** The way of a frame to Linux: whenever the firmware writes a legal frame, the transport can go on
      by itself, with memory for it, until this frame is the last one that Linux has received. */
  lemma FwFrameArrives(s: State, first: seq<Action>, f: Bytes) returns (run: seq<Action>)
    requires Init(s) && ValidRun(s, first) && FrameOk(TO_HOST, f) && After(s, first).toHost.pc.PIdle?
    ensures ValidRun(s, first + [FwWrite(f)] + run) && AllWork(run) && MemoryEnough(run)
    ensures var e := After(s, first + [FwWrite(f)] + run);
            && AtRest(e) && e.toHost.log.pushed == After(s, first).toHost.log.pushed + [f]
            && e.toHost.log.delivered != [] && e.toHost.log.delivered[|e.toHost.log.delivered| - 1] == f
  {
    hide Inv, Next, AllWork, MemoryEnough, AtRest, Accepted, Given, Answers, Pending;
    var s1 := After(s, first);
    RunInv(s, first);
    assert Ready(s1, FwWrite(f));
    hide Ready;
    RunsJoin(s, first, [FwWrite(f)]);
    StepKeepsInv(s1, FwWrite(f));
    GivenStep(s1, FwWrite(f));
    WriteStartsIdle(s1, f);
    var s2 := Next(s1, FwWrite(f));
    assert s2 == After(s, first + [FwWrite(f)]);
    run := SomeRunDelivers(s2);
    RunsJoin(s, first + [FwWrite(f)], run);
    GivenOfWork(run, s2.toHost.log.pushed + Pending(s2.toHost));
    GivenIsPushed(s2, run);
    var e := After(s2, run);
    RunKeepsInv(s2, run);
    RestIsIdle(e);
    AtRestAllIsDelivered(s, first + [FwWrite(f)] + run);
    NothingPending(e.toHost);
    LastIsKept(s2, run);
  }

  lemma NothingPending(d: Direction)
    requires d.pc.PIdle?
    ensures d.log.pushed + Pending(d) == d.log.pushed
  {
  }

  /** A frame that is pushed after the start of a run with memory is received. */
  lemma LastIsKept(s: State, run: seq<Action>)
    requires Inv(s) && ValidRun(s, run) && MemoryEnough(run)
    requires var d := After(s, run).toHost;
             d.cc.CAsleep? && d.log.taken == d.log.pushed && |d.log.pushed| > |s.toHost.log.pushed|
    ensures var log := After(s, run).toHost.log;
            log.delivered != [] && log.delivered[|log.delivered| - 1] == log.pushed[|log.pushed| - 1]
  {
    hide ValidRun, After, Counters, ProducerOk, FrameWake, SpaceWake, MemoryEnough, Answers, ToFwInv;
    RunKeepsInv(s, run);
    var log := After(s, run).toHost.log;
    var before := s.toHost.log.kept + Answered(s.toHost.cc);
    assert |before| <= |s.toHost.log.pushed|;
    AnswersAreKept(s, run);
    EnoughIsKept(run, before);
    assert log.kept == Answers(run, before);
    var n := |log.kept| - 1;
    assert log.kept[n];
    assert log.delivered == Select(log.taken[..n], log.kept[..n]) + [log.taken[n]];
  }

  lemma {:induction false} GivenOfWork(run: seq<Action>, given: seq<Bytes>)
    requires AllWork(run)
    ensures Given(run, given) == given
  {
    if run != [] {
      assert Works(run[0]);
      GivenOfWork(run[1..], given);
    }
  }
}
