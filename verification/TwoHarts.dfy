/**
 The whole transport: hart 1 with Linux, hart 0 with the firmware, the two rings, the two
 doorbells, the interrupt handlers, the binary semaphores of the firmware, and the receive
 and transmit work of Linux.  The steps of all of them interleave.

 The work items are binary: a work that is queued while it runs runs again.  The receive
 work calls the driver's read until it returns no frame (`CAsleep`).
 */
module TwoHarts {
  import opened Words
  import opened RingLayout
  import opened RingDirection

  const TX_PAUSE := 64
  const TX_RESUME := 16
  const TX_QUEUE_MAX := 256

  datatype Irq = IrqIdle | IrqCleared | IrqRxQueued
  datatype Isr = IsrIdle | IsrCleared | IsrRxGiven
  datatype Control = Steady | Quiesced | Cancelled | Resuming

  /** Linux: the doorbell to it, its interrupt handler, its work items, and the transmit queue.
      `accepted` is history: the frames that the driver took and did not purge. */
  datatype Host = Host(
    doorbell: bool, irq: Irq, rxWork: bool, txWork: bool,
    queue: seq<Bytes>, quiesced: bool, paused: bool, inWrite: bool, control: Control,
    accepted: seq<Bytes>)

  /** The firmware: the doorbell to it, its interrupt handler, and its two semaphores. */
  datatype Firmware = Firmware(doorbell: bool, isr: Isr, rxSem: bool, spaceSem: bool)

  datatype State = State(host: Host, fw: Firmware, toFw: Direction, toHost: Direction)

  datatype Action =
    | ToFw(st: Step) | ToHost(st: Step)
    // Linux: transmit, interrupt, receive, control
    | HostWrite(f: Bytes) | HostTxWork | HostUnlink | HostFinish
    | IrqEnter | IrqRx | IrqTx | HostRxWork | HostRing
    | Quiesce | CancelTxWork | Purge | Reinit | ScheduleTxWork
    // Firmware: interrupt, receive, transmit
    | IsrEnter | IsrRx | IsrSpace | FwRxTake | FwRing
    | FwWrite(f: Bytes) | FwDone | FwTimeout | FwSpaceTake(timeout: bool)

  // ---- The steps ----

  ghost predicate Ready(s: State, a: Action) {
    match a
    case ToFw(st) => Can(s.toFw, st)
    case ToHost(st) => Can(s.toHost, st)
    case HostWrite(f) => s.toFw.pc.PIdle? && FrameOk(TO_FW, f)
    case HostTxWork => s.toFw.pc.PIdle? && s.host.txWork
    case HostUnlink => s.toFw.pc.PDone? && s.host.queue != []
    case HostFinish => s.toFw.pc.PEnd? || s.toFw.pc.PGaveUp?
    case IrqEnter => s.host.doorbell && s.host.irq.IrqIdle?
    case IrqRx => s.host.irq.IrqCleared?
    case IrqTx => s.host.irq.IrqRxQueued?
    case HostRxWork => s.host.rxWork && s.toHost.cc.CAsleep?
    case HostRing => s.toHost.cc.CRing?
    case Quiesce => s.toFw.pc.PIdle? && s.host.control.Steady?
    case CancelTxWork => s.toFw.pc.PIdle? && s.host.control.Quiesced?
    case Purge => s.toFw.pc.PIdle? && s.host.control.Cancelled? && |s.host.queue| <= |s.host.accepted|
    case Reinit => s.toFw.pc.PIdle? && s.host.control.Steady?
    case ScheduleTxWork => s.host.control.Resuming?
    case IsrEnter => s.fw.doorbell && s.fw.isr.IsrIdle?
    case IsrRx => s.fw.isr.IsrCleared?
    case IsrSpace => s.fw.isr.IsrRxGiven?
    case FwRxTake => s.fw.rxSem && s.toFw.cc.CAsleep?
    case FwRing => s.toFw.cc.CRing?
    case FwWrite(f) => s.toHost.pc.PIdle? && FrameOk(TO_HOST, f)
    case FwDone => s.toHost.pc.PDone?
    case FwTimeout => s.toHost.pc.PGaveUp?
    case FwSpaceTake(timeout) => s.toHost.pc.PGaveUp? && (timeout || s.fw.spaceSem)
  }

  /** esp_shm_tx_flush() up to its first try; `q` is not changed before it. */
  function StartFlush(s: State, host: Host): State {
    if host.quiesced then s.(host := host)
    else s.(host := host,
            toFw := if host.queue == [] then s.toFw.(pc := PEnd)
                    else s.toFw.(pc := PTry(false), frame := host.queue[0]))
  }

  function Write(s: State, f: Bytes): State {
    var host := s.host;
    if host.quiesced || |host.queue| >= TX_QUEUE_MAX then s
    else StartFlush(s, host.(queue := host.queue + [f], accepted := host.accepted + [f], inWrite := true))
  }

  function Unlink(s: State): State
    requires s.host.queue != []
  {
    var q := s.host.queue[1..];
    s.(host := s.host.(queue := q),
       toFw := if q == [] then s.toFw.(pc := PEnd) else s.toFw.(pc := PTry(false), frame := q[0]))
  }

  /** The end of a flush: esp_shm_tx_flow(), the doorbell, and the pause of esp_shm_write(). */
  function Finish(s: State): State {
    var n := |s.host.queue|;
    var paused := s.host.paused && n > TX_RESUME;
    s.(host := s.host.(paused := paused || (s.host.inWrite && n >= TX_PAUSE)),
       fw := s.fw.(doorbell := s.fw.doorbell || s.toFw.kick),
       toFw := s.toFw.(pc := PIdle, kick := false))
  }

  function PurgeQueue(host: Host): Host
    requires |host.queue| <= |host.accepted|
  {
    host.(queue := [], accepted := host.accepted[..|host.accepted| - |host.queue|], control := Steady)
  }

  ghost function Next(s: State, a: Action): State
    requires Ready(s, a)
  {
    match a
    case ToFw(st) => s.(toFw := Do(s.toFw, st))
    case ToHost(st) => s.(toHost := Do(s.toHost, st))
    case HostWrite(f) => Write(s, f)
    case HostTxWork => StartFlush(s, s.host.(txWork := false, inWrite := false))
    case HostUnlink => Unlink(s)
    case HostFinish => Finish(s)
    case IrqEnter => s.(host := s.host.(doorbell := false, irq := IrqCleared))
    case IrqRx => s.(host := s.host.(rxWork := true, irq := IrqRxQueued))
    case IrqTx => s.(host := s.host.(txWork := s.host.txWork || s.host.queue != [], irq := IrqIdle))
    case HostRxWork => s.(host := s.host.(rxWork := false), toHost := s.toHost.(cc := CLoad))
    case HostRing => s.(fw := s.fw.(doorbell := true), toHost := s.toHost.(cc := CLoad))
    case Quiesce => s.(host := s.host.(quiesced := true, control := Quiesced))
    case CancelTxWork => s.(host := s.host.(txWork := false, control := Cancelled))
    case Purge => s.(host := PurgeQueue(s.host))
    case Reinit => s.(host := s.host.(quiesced := false, control := Resuming))
    case ScheduleTxWork => s.(host := s.host.(txWork := true, control := Steady))
    case IsrEnter => s.(fw := s.fw.(doorbell := false, isr := IsrCleared))
    case IsrRx => s.(fw := s.fw.(rxSem := true, isr := IsrRxGiven))
    case IsrSpace => s.(fw := s.fw.(spaceSem := true, isr := IsrIdle))
    case FwRxTake => s.(fw := s.fw.(rxSem := false), toFw := s.toFw.(cc := CLoad))
    case FwRing => s.(host := s.host.(doorbell := true), toFw := s.toFw.(cc := CLoad))
    case FwWrite(f) => s.(toHost := s.toHost.(pc := PTry(false), frame := f))
    case FwDone =>
      s.(host := s.host.(doorbell := s.host.doorbell || s.toHost.kick),
         toHost := s.toHost.(pc := PIdle, kick := false))
    case FwTimeout => s.(toHost := s.toHost.(pc := PIdle))
    case FwSpaceTake(timeout) =>
      s.(fw := s.fw.(spaceSem := s.fw.spaceSem && timeout), toHost := s.toHost.(pc := PTry(false)))
  }

  // ---- Wake-ups that are on their way ----

  /** A doorbell that Linux has not seen, an interrupt before it queues the receive work, or
      the queued work. */
  ghost predicate HostRxWoken(host: Host) {
    host.doorbell || host.irq.IrqCleared? || host.rxWork
  }

  ghost predicate HostTxWoken(host: Host) {
    host.doorbell || !host.irq.IrqIdle? || host.txWork
  }

  ghost predicate FwRxWoken(fw: Firmware) {
    fw.doorbell || fw.isr.IsrCleared? || fw.rxSem
  }

  ghost predicate FwSpaceWoken(fw: Firmware) {
    fw.doorbell || !fw.isr.IsrIdle? || fw.spaceSem
  }

  /** Linux has frames to send, and no code of it that runs will send them. */
  ghost predicate HostBlocked(host: Host, pc: ProducerPc) {
    !host.quiesced && host.queue != [] && (pc.PIdle? || pc.PGaveUp?)
  }

  function First(queue: seq<Bytes>): Bytes {
    if queue == [] then [] else queue[0]
  }

  // ---- The invariant ----

  ghost predicate QueueOk(host: Host, pc: ProducerPc, frame: Bytes, pushed: seq<Bytes>) {
    && |host.queue| <= TX_QUEUE_MAX
    && (forall f :: f in host.queue ==> FrameOk(TO_FW, f))
    && (pc.PEnd? ==> host.queue == [])
    && (!pc.PIdle? ==> !host.quiesced)
    && (!pc.PIdle? && !pc.PEnd? ==> host.queue != [] && frame == host.queue[0])
    && host.accepted == pushed + (if pc.PFence? || pc.PDone? then host.queue[1..] else host.queue)
    && (host.control.Quiesced? || host.control.Cancelled? ==> host.quiesced)
    && (host.control.Resuming? ==> !host.quiesced)
    && (host.control.Steady? && host.quiesced ==> host.queue == [])
  }

  /** The net queues: stopped from 64 waiting frames on, and never left stopped. */
  ghost predicate FlowOk(host: Host, pc: ProducerPc) {
    && (|host.queue| >= TX_PAUSE ==> host.paused || (!pc.PIdle? && host.inWrite))
    && (host.paused && |host.queue| <= TX_RESUME && !host.quiesced ==>
          !pc.PIdle? || host.txWork || host.control.Resuming?)
  }

  ghost predicate ToFwInv(host: Host, fw: Firmware, d: Direction) {
    && DataInv(d) && d.link == TO_FW
    && QueueOk(host, d.pc, d.frame, d.log.pushed)
    && FlowOk(host, d.pc)
    && (d.pc.PIdle? ==> !d.kick)
    && FrameWake(d, FwRxWoken(fw))
    && SpaceWake(d, HostBlocked(host, d.pc), First(host.queue), HostTxWoken(host))
  }

  ghost predicate ToHostInv(host: Host, fw: Firmware, d: Direction) {
    && DataInv(d) && d.link == TO_HOST
    && (d.pc.PEnd? ==> false)
    && (d.kick ==> d.pc.PDone?)
    && FrameWake(d, HostRxWoken(host))
    && SpaceWake(d, d.pc.PGaveUp?, d.frame, FwSpaceWoken(fw))
  }

  ghost predicate Inv(s: State) {
    ToFwInv(s.host, s.fw, s.toFw) && ToHostInv(s.host, s.fw, s.toHost)
  }

  // ---- Every step keeps the invariant ----

  lemma ProducerStepQueue(host: Host, d: Direction, st: Step)
    requires DataInv(d) && Can(d, st)
    requires QueueOk(host, d.pc, d.frame, d.log.pushed) && FlowOk(host, d.pc)
    ensures var d' := Do(d, st);
            QueueOk(host, d'.pc, d'.frame, d'.log.pushed) && FlowOk(host, d'.pc)
            && d'.link == d.link && (OfProducer(st) || d'.pc == d.pc) && (d'.pc.PIdle? == d.pc.PIdle?)
            && d'.frame == d.frame && (d'.pc.PIdle? ==> d'.kick == d.kick)
  {
    hide DataInv, Room, RecordLen, Slot, Record, BadLength, FromLe32, FrameOk;
    if st.DoPublish? {
      var q := host.queue;
      assert [q[0]] + q[1..] == q;
      Assoc(d.log.pushed, [q[0]], q[1..]);
    }
  }

  lemma ToFwStep(host: Host, fw: Firmware, d: Direction, st: Step)
    requires ToFwInv(host, fw, d) && Can(d, st)
    ensures ToFwInv(host, fw, Do(d, st))
  {
    hide DataInv, FrameOk, Can, Do;
    StepKeeps(d, st);
    ProducerStepQueue(host, d, st);
    if OfProducer(st) {
      ProducerActs(host, d, st);
      ProducerWakes(d, st, FwRxWoken(fw), HostTxWoken(host));
    } else {
      ConsumerWakes(d, st, HostBlocked(host, d.pc), First(host.queue), FwRxWoken(fw), HostTxWoken(host));
    }
    hide FrameWake, SpaceWake, QueueOk, FlowOk;
  }

  lemma ProducerActs(host: Host, d: Direction, st: Step)
    requires Can(d, st) && OfProducer(st) && QueueOk(host, d.pc, d.frame, d.log.pushed)
    ensures !HostBlocked(host, d.pc)
    ensures HostBlocked(host, Do(d, st).pc) <==> Do(d, st).pc.PGaveUp?
    ensures First(host.queue) == d.frame
  {
    hide Room, RecordLen, Slot, Record;
  }

  lemma HostStartsFlush(s: State, a: Action)
    requires ToFwInv(s.host, s.fw, s.toFw) && Ready(s, a) && (a.HostWrite? || a.HostTxWork?)
    ensures var s' := Next(s, a); ToFwInv(s'.host, s'.fw, s'.toFw) && s'.fw == s.fw && s'.toHost == s.toHost
    ensures HostRxWoken(Next(s, a).host) == HostRxWoken(s.host)
  {
    var s' := Next(s, a);
    assert FrameOk(TO_FW, First(s.host.queue)) || s.host.queue == [];
    RestartKeeps(s.toFw, s'.toFw);
    hide DataInv, FrameOk;
    if a.HostWrite? {
      Assoc(s.toFw.log.pushed, s.host.queue, [a.f]);
    }
  }

  lemma HostGoesOn(s: State, a: Action)
    requires ToFwInv(s.host, s.fw, s.toFw) && Ready(s, a) && (a.HostUnlink? || a.HostFinish?)
    ensures var s' := Next(s, a); ToFwInv(s'.host, s'.fw, s'.toFw) && s'.toHost == s.toHost
    ensures HostRxWoken(Next(s, a).host) == HostRxWoken(s.host)
    ensures FwSpaceWoken(s.fw) ==> FwSpaceWoken(Next(s, a).fw)
  {
    var s' := Next(s, a);
    RestartKeeps(s.toFw, s'.toFw);
    hide DataInv, FrameOk;
  }

  lemma HostIrq(s: State, a: Action)
    requires ToFwInv(s.host, s.fw, s.toFw) && Ready(s, a) && (a.IrqEnter? || a.IrqRx? || a.IrqTx?)
    ensures var s' := Next(s, a); ToFwInv(s'.host, s'.fw, s'.toFw) && s'.fw == s.fw && s'.toHost == s.toHost
    ensures HostRxWoken(s.host) ==> HostRxWoken(Next(s, a).host)
  {
    hide DataInv, FrameOk;
  }

  lemma HostControl(s: State, a: Action)
    requires ToFwInv(s.host, s.fw, s.toFw) && Ready(s, a)
    requires a.Quiesce? || a.CancelTxWork? || a.Purge? || a.Reinit? || a.ScheduleTxWork?
    ensures var s' := Next(s, a); ToFwInv(s'.host, s'.fw, s'.toFw) && s'.fw == s.fw && s'.toHost == s.toHost
    ensures HostRxWoken(Next(s, a).host) == HostRxWoken(s.host)
  {
    hide DataInv, FrameOk;
  }

  lemma FwInterrupt(s: State, a: Action)
    requires Inv(s) && Ready(s, a) && (a.IsrEnter? || a.IsrRx? || a.IsrSpace?)
    ensures Inv(Next(s, a))
  {
    hide DataInv, FrameOk, QueueOk, FlowOk;
  }

  lemma FwReceives(s: State, a: Action)
    requires Inv(s) && Ready(s, a) && (a.FwRxTake? || a.FwRing?)
    ensures Inv(Next(s, a))
  {
    RestartKeeps(s.toFw, Next(s, a).toFw);
    hide DataInv, FrameOk, QueueOk, FlowOk;
  }

  lemma HostReceives(s: State, a: Action)
    requires Inv(s) && Ready(s, a) && (a.HostRxWork? || a.HostRing?)
    ensures Inv(Next(s, a))
  {
    RestartKeeps(s.toHost, Next(s, a).toHost);
    hide DataInv, FrameOk, QueueOk, FlowOk;
  }

  lemma FwSends(s: State, a: Action)
    requires Inv(s) && Ready(s, a) && (a.FwWrite? || a.FwDone? || a.FwTimeout? || a.FwSpaceTake?)
    ensures Inv(Next(s, a))
  {
    var s' := Next(s, a);
    RestartKeeps(s.toHost, s'.toHost);
    hide DataInv, FrameOk, QueueOk, FlowOk;
    assert ToFwInv(s'.host, s'.fw, s'.toFw);
    hide ToFwInv, HostTxWoken, FwRxWoken;
  }

  lemma ToHostStep(host: Host, fw: Firmware, d: Direction, st: Step)
    requires ToHostInv(host, fw, d) && Can(d, st)
    ensures ToHostInv(host, fw, Do(d, st))
  {
    hide DataInv, Can, Do;
    StepKeeps(d, st);
    StepShape(d, st);
    if OfProducer(st) {
      ProducerWakes(d, st, HostRxWoken(host), FwSpaceWoken(fw));
    } else {
      ConsumerWakes(d, st, d.pc.PGaveUp?, d.frame, HostRxWoken(host), FwSpaceWoken(fw));
    }
    hide FrameWake, SpaceWake;
  }

  lemma ToHostFrame(host: Host, host': Host, fw: Firmware, fw': Firmware, d: Direction)
    requires ToHostInv(host, fw, d)
    requires HostRxWoken(host) ==> HostRxWoken(host')
    requires FwSpaceWoken(fw) ==> FwSpaceWoken(fw')
    ensures ToHostInv(host', fw', d)
  {
    hide DataInv;
  }

  lemma StepKeepsInv(s: State, a: Action)
    requires Inv(s) && Ready(s, a)
    ensures Inv(Next(s, a))
  {
    var s' := Next(s, a);
    hide ToFwInv, ToHostInv, Write, StartFlush, Unlink, Finish, PurgeQueue;
    match a
    case ToFw(st) => ToFwStep(s.host, s.fw, s.toFw, st);
    case ToHost(st) => ToHostStep(s.host, s.fw, s.toHost, st);
    case HostWrite(_) => HostStartsFlush(s, a); ToHostFrame(s.host, s'.host, s.fw, s'.fw, s.toHost);
    case HostTxWork => HostStartsFlush(s, a); ToHostFrame(s.host, s'.host, s.fw, s'.fw, s.toHost);
    case HostUnlink => HostGoesOn(s, a); ToHostFrame(s.host, s'.host, s.fw, s'.fw, s.toHost);
    case HostFinish => HostGoesOn(s, a); ToHostFrame(s.host, s'.host, s.fw, s'.fw, s.toHost);
    case IrqEnter => HostIrq(s, a); ToHostFrame(s.host, s'.host, s.fw, s'.fw, s.toHost);
    case IrqRx => HostIrq(s, a); ToHostFrame(s.host, s'.host, s.fw, s'.fw, s.toHost);
    case IrqTx => HostIrq(s, a); ToHostFrame(s.host, s'.host, s.fw, s'.fw, s.toHost);
    case HostRxWork => HostReceives(s, a);
    case HostRing => HostReceives(s, a);
    case IsrEnter => FwInterrupt(s, a);
    case IsrRx => FwInterrupt(s, a);
    case IsrSpace => FwInterrupt(s, a);
    case FwRxTake => FwReceives(s, a);
    case FwRing => FwReceives(s, a);
    case FwWrite(_) => FwSends(s, a);
    case FwDone => FwSends(s, a);
    case FwTimeout => FwSends(s, a);
    case FwSpaceTake(_) => FwSends(s, a);
    case _ => HostControl(s, a); ToHostFrame(s.host, s'.host, s.fw, s'.fw, s.toHost);
  }
}
