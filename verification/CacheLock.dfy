/**
 The cache sync engine that the two harts share, and the lock word around it, as interleaved
 steps: each step is one atomic exchange, one register access, or the end of an operation of
 the engine.  It starts when the firmware has shared the cache, before hart 1 runs.

 `log` has each operation that the engine started, with the register values that it saw.
 `done` has the calls that gave the lock back.
 */
module CacheLock {
  import opened Words

  const INVALIDATE: u32 := 1
  const WRITEBACK: u32 := 4
  const WRITEBACK_INV: u32 := 8
  const MAP_L1_DCACHE: u32 := 16
  const MAP_L1_ICACHE_1: u32 := 2
  const FW_BASE: u32 := 0x50f0_0000
  const FW_SIZE: u32 := 0x3_0000

  const CACHE_WBACK_ALL := 0
  const CACHE_INV := 1
  const CACHE_WBACK_INV := 3
  const ICACHE_SYNC := 4

  /** One call of the sync function of a hart: its registers, and how often it starts the engine. */
  datatype Sync = Sync(map_: u32, addr: u32, size: u32, op: u32, passes: nat)

  // ---- The vendor SBI call ----

  /** esp32s31_cache_op_allowed(), with the 32-bit sum. */
  predicate OpAllowed(op: u32, addr: u32, size: u32) {
    var end := (addr + size) % WORD;
    op != INVALIDATE || (size != 0 && end > addr && (end <= FW_BASE || addr >= FW_BASE + FW_SIZE))
  }

  /** A range of memory that does not touch the memory of OpenSBI. */
  predicate OutsideOpenSbi(addr: u32, size: u32) {
    size > 0 && addr + size < WORD && (addr + size <= FW_BASE || FW_BASE + FW_SIZE <= addr)
  }

  /** The test with the wrapped sum is exact: an invalidate passes if and only if it is a range
      of memory outside of OpenSBI. */
  lemma AllowedExactly(op: u32, addr: u32, size: u32)
    ensures OpAllowed(op, addr, size) <==> op == INVALIDATE ==> OutsideOpenSbi(addr, size)
  {
    if addr + size >= WORD {
      assert (addr + size) % WORD == addr + size - WORD;
    }
  }

  /** esp32s31_cache_sync() of OpenSBI: a write-back runs twice. */
  function OpenSbiSync(map_: u32, op: u32, addr: u32, size: u32): Sync {
    Sync(map_, addr, size, op, if op == INVALIDATE then 1 else 2)
  }

  datatype Answer = Calls(calls: seq<Sync>) | NotSupported | InvalidParam

  function DcacheOp(funcid: int): u32 {
    if funcid == CACHE_INV then INVALIDATE else if funcid == CACHE_WBACK_INV then WRITEBACK_INV else WRITEBACK
  }

  /** esp32s31_vendor_ext(): the syncs of one call. */
  function VendorExt(funcid: int, a0: u32, a1: u32): Answer {
    var addr := if funcid == CACHE_WBACK_ALL then 0 else a0;
    var size := if funcid == CACHE_WBACK_ALL then 0 else a1;
    if funcid < 0 || funcid > ICACHE_SYNC then NotSupported
    else if !OpAllowed(DcacheOp(funcid), addr, size) then InvalidParam
    else
      var dcache := OpenSbiSync(MAP_L1_DCACHE, DcacheOp(funcid), addr, size);
      if funcid == ICACHE_SYNC then Calls([dcache, OpenSbiSync(MAP_L1_ICACHE_1, INVALIDATE, addr, size)])
      else Calls([dcache])
  }

  /** An invalidate of the D-cache, which drops dirty lines, spares the memory of OpenSBI. */
  predicate SparesOpenSbi(map_: u32, addr: u32, size: u32, op: u32) {
    map_ == MAP_L1_DCACHE && op == INVALIDATE ==> OutsideOpenSbi(addr, size)
  }

  predicate AllSpare(calls: seq<Sync>) {
    forall i :: 0 <= i < |calls| ==> SparesOpenSbi(calls[i].map_, calls[i].addr, calls[i].size, calls[i].op)
  }

  /** What each of the five calls does: the caches of the map (16 the D-cache, 2 the I-cache of this
      hart), the range, the operation (1 invalidate, 4 write back, 8 write back and invalidate), and
      twice for each write-back.  New code is written back from the D-cache before the I-cache drops
      its lines.  An invalidate that touches the memory of OpenSBI, and each other call, fails. */
  lemma VendorExtMeaning(funcid: int, a0: u32, a1: u32)
    ensures var r := VendorExt(funcid, a0, a1);
            && (funcid == 0 ==> r == Calls([Sync(16, 0, 0, 4, 2)]))
            && (funcid == 1 ==> r == if OutsideOpenSbi(a0, a1) then Calls([Sync(16, a0, a1, 1, 1)]) else InvalidParam)
            && (funcid == 2 ==> r == Calls([Sync(16, a0, a1, 4, 2)]))
            && (funcid == 3 ==> r == Calls([Sync(16, a0, a1, 8, 2)]))
            && (funcid == 4 ==> r == Calls([Sync(16, a0, a1, 4, 2), Sync(2, a0, a1, 1, 1)]))
            && (funcid < 0 || 4 < funcid ==> r == NotSupported)
            && (r.Calls? ==> AllSpare(r.calls) && r.calls != [] && forall c :: c in r.calls ==> c.passes > 0)
  {
    var all := funcid == CACHE_WBACK_ALL;
    AllowedExactly(DcacheOp(funcid), if all then 0 else a0, if all then 0 else a1);
    hide OpAllowed;
  }

  // ---- The two harts ----

  datatype Hart = Firmware | OpenSbi

  datatype Pc = Idle | Spin | SetMap | SetAddr | SetSize | Start(pass: nat) | Poll(pass: nat) | Release

  /** What a hart does: `queue[0]` is its current call.  `asked` has all the calls so far. */
  datatype Worker = Worker(pc: Pc, queue: seq<Sync>, asked: seq<Sync>)

  datatype Registers = Registers(map_: u32, addr: u32, size: u32)

  datatype Started = Started(hart: Hart, regs: Registers, op: u32)

  datatype Call = Call(hart: Hart, sync: Sync)

  datatype State = State(
    lock: u32, regs: Registers, busy: bool, fw: Worker, sbi: Worker, log: seq<Started>, done: seq<Call>)

  datatype Action =
    | Rom(sync: Sync)
    | Ecall(funcid: int, a0: u32, a1: u32)
    | Exchange(hart: Hart) | StoreMap(hart: Hart) | StoreAddr(hart: Hart) | StoreSize(hart: Hart)
    | StoreCtrl(hart: Hart) | LoadCtrl(hart: Hart) | Unlock(hart: Hart)
    | EngineEnds

  function Of(s: State, h: Hart): Worker {
    if h.Firmware? then s.fw else s.sbi
  }

  function With(s: State, h: Hart, w: Worker): State {
    if h.Firmware? then s.(fw := w) else s.(sbi := w)
  }

  predicate Inside(w: Worker) {
    !w.pc.Idle? && !w.pc.Spin?
  }

  /** A hart is idle exactly when it has no call. */
  predicate HasWork(w: Worker) {
    w.queue != []
  }

  predicate Ready(s: State, a: Action) {
    match a
    case Rom(r) => s.fw.pc.Idle? && r.passes > 0
    case Ecall(_, _, _) => s.sbi.pc.Idle?
    case Exchange(h) => Of(s, h).pc.Spin?
    case StoreMap(h) => Of(s, h).pc.SetMap? && HasWork(Of(s, h))
    case StoreAddr(h) => Of(s, h).pc.SetAddr? && HasWork(Of(s, h))
    case StoreSize(h) => Of(s, h).pc.SetSize? && HasWork(Of(s, h))
    case StoreCtrl(h) => Of(s, h).pc.Start? && HasWork(Of(s, h))
    case LoadCtrl(h) => Of(s, h).pc.Poll? && HasWork(Of(s, h))
    case Unlock(h) => Of(s, h).pc.Release? && HasWork(Of(s, h))
    case EngineEnds => s.busy
  }

  function Accept(w: Worker, calls: seq<Sync>): Worker {
    if calls == [] then w else w.(pc := Spin, queue := calls, asked := w.asked + calls)
  }

  function Go(s: State, h: Hart, pc: Pc): State {
    With(s, h, Of(s, h).(pc := pc))
  }

  function Next(s: State, a: Action): State
    requires Ready(s, a)
  {
    match a
    case Rom(r) => s.(fw := Accept(s.fw, [r]))
    case Ecall(funcid, a0, a1) =>
      var answer := VendorExt(funcid, a0, a1);
      if answer.Calls? then s.(sbi := Accept(s.sbi, answer.calls)) else s
    case Exchange(h) => if s.lock == 0 then Go(s, h, SetMap).(lock := 1) else s.(lock := 1)
    case StoreMap(h) => Go(s, h, SetAddr).(regs := s.regs.(map_ := Of(s, h).queue[0].map_))
    case StoreAddr(h) => Go(s, h, SetSize).(regs := s.regs.(addr := Of(s, h).queue[0].addr))
    case StoreSize(h) => Go(s, h, Start(0)).(regs := s.regs.(size := Of(s, h).queue[0].size))
    case StoreCtrl(h) =>
      Go(s, h, Poll(Of(s, h).pc.pass)).(busy := true, log := s.log + [Started(h, s.regs, Of(s, h).queue[0].op)])
    case LoadCtrl(h) =>
      var pass := Of(s, h).pc.pass;
      if s.busy then s
      else Go(s, h, if pass + 1 < Of(s, h).queue[0].passes then Start(pass + 1) else Release)
    case Unlock(h) =>
      var w := Of(s, h);
      With(s, h, w.(pc := if |w.queue| > 1 then Spin else Idle, queue := w.queue[1..]))
        .(lock := 0, done := s.done + [Call(h, w.queue[0])])
    case EngineEnds => s.(busy := false)
  }

  // ---- What the engine should see ----

  /** The operations of the first `k` passes of a call. */
  function Passes(h: Hart, r: Sync, k: nat): seq<Started> {
    seq(k, _ => Started(h, Registers(r.map_, r.addr, r.size), r.op))
  }

  /** All the operations of calls that run one after the other. */
  function Serial(done: seq<Call>): seq<Started> {
    if done == [] then []
    else
      var c := done[|done| - 1];
      Serial(done[..|done| - 1]) + Passes(c.hart, c.sync, c.sync.passes)
  }

  function Begun(w: Worker): nat {
    match w.pc
    case Start(pass) => pass
    case Poll(pass) => pass + 1
    case Release => if w.queue == [] then 0 else w.queue[0].passes
    case _ => 0
  }

  /** The operations of the call that holds the lock. */
  function Current(s: State): seq<Started> {
    if Inside(s.fw) && HasWork(s.fw) then Passes(Firmware, s.fw.queue[0], Begun(s.fw))
    else if Inside(s.sbi) && HasWork(s.sbi) then Passes(OpenSbi, s.sbi.queue[0], Begun(s.sbi))
    else []
  }

  function CallsOf(done: seq<Call>, h: Hart): seq<Sync> {
    if done == [] then []
    else
      var c := done[|done| - 1];
      CallsOf(done[..|done| - 1], h) + if c.hart == h then [c.sync] else []
  }

  // ---- The invariant ----

  ghost predicate WorkerOk(w: Worker) {
    && (w.pc.Idle? <==> w.queue == [])
    && (forall i :: 0 <= i < |w.queue| ==> w.queue[i].passes > 0)
    && (w.pc.Start? || w.pc.Poll? ==> w.queue != [] && w.pc.pass < w.queue[0].passes)
  }

  ghost predicate RegsOk(w: Worker, regs: Registers) {
    && WorkerOk(w)
    && (Inside(w) && !w.pc.SetMap? ==> regs.map_ == w.queue[0].map_)
    && (Inside(w) && !w.pc.SetMap? && !w.pc.SetAddr? ==> regs.addr == w.queue[0].addr)
    && (Inside(w) && !w.pc.SetMap? && !w.pc.SetAddr? && !w.pc.SetSize? ==> regs.size == w.queue[0].size)
  }

  ghost predicate LockOk(s: State) {
    && (s.lock == 0 <==> !Inside(s.fw) && !Inside(s.sbi))
    && !(Inside(s.fw) && Inside(s.sbi))
    && (s.busy ==> s.fw.pc.Poll? || s.sbi.pc.Poll?)
  }

  ghost predicate LogOk(s: State) {
    s.log == Serial(s.done) + Current(s)
  }

  ghost predicate AskedOk(s: State) {
    && CallsOf(s.done, Firmware) + s.fw.queue == s.fw.asked
    && CallsOf(s.done, OpenSbi) + s.sbi.queue == s.sbi.asked
  }

  ghost predicate Spared(log: seq<Started>) {
    forall i :: 0 <= i < |log| && log[i].hart.OpenSbi? ==>
      SparesOpenSbi(log[i].regs.map_, log[i].regs.addr, log[i].regs.size, log[i].op)
  }

  ghost predicate SafeOk(s: State) {
    AllSpare(s.sbi.queue) && Spared(s.log)
  }

  ghost predicate Inv(s: State) {
    RegsOk(s.fw, s.regs) && RegsOk(s.sbi, s.regs) && LockOk(s) && LogOk(s) && AskedOk(s) && SafeOk(s)
  }

  lemma RegsStep(s: State, a: Action)
    requires Inv(s) && Ready(s, a)
    ensures var t := Next(s, a); RegsOk(t.fw, t.regs) && RegsOk(t.sbi, t.regs) && LockOk(t)
  {
    hide LogOk, AskedOk, SafeOk, VendorExt;
    if a.Ecall? {
      VendorExtMeaning(a.funcid, a.a0, a.a1);
    }
  }

  lemma PassesGrow(h: Hart, r: Sync, k: nat)
    ensures Passes(h, r, k + 1) == Passes(h, r, k) + [Started(h, Registers(r.map_, r.addr, r.size), r.op)]
    ensures Passes(h, r, 0) == []
  {
  }

  lemma SerialGrows(done: seq<Call>, c: Call)
    ensures Serial(done + [c]) == Serial(done) + Passes(c.hart, c.sync, c.sync.passes)
    ensures CallsOf(done + [c], Firmware) == CallsOf(done, Firmware) + if c.hart.Firmware? then [c.sync] else []
    ensures CallsOf(done + [c], OpenSbi) == CallsOf(done, OpenSbi) + if c.hart.OpenSbi? then [c.sync] else []
  {
    assert (done + [c])[..|done|] == done;
  }

  lemma LogStarts(s: State, h: Hart)
    requires Inv(s) && Ready(s, StoreCtrl(h))
    ensures LogOk(Next(s, StoreCtrl(h)))
  {
    hide AskedOk, SafeOk, VendorExt, Serial, Passes;
    var w := Of(s, h);
    PassesGrow(h, w.queue[0], w.pc.pass);
    Assoc(Serial(s.done), Current(s), [Started(h, s.regs, w.queue[0].op)]);
  }

  lemma LogEnds(s: State, h: Hart)
    requires Inv(s) && Ready(s, Unlock(h))
    ensures LogOk(Next(s, Unlock(h)))
  {
    hide AskedOk, SafeOk, VendorExt, Serial, Passes;
    SerialGrows(s.done, Call(h, Of(s, h).queue[0]));
  }

  lemma LogStep(s: State, a: Action)
    requires Inv(s) && Ready(s, a)
    ensures LogOk(Next(s, a))
  {
    hide AskedOk, SafeOk, VendorExt, Serial, Passes;
    match a
    case StoreCtrl(h) => LogStarts(s, h);
    case Unlock(h) => LogEnds(s, h);
    case Exchange(h) => PassesGrow(h, Of(s, h).queue[0], 0);
    case _ =>
  }

  lemma AskedStep(s: State, a: Action)
    requires Inv(s) && Ready(s, a)
    ensures AskedOk(Next(s, a))
  {
    hide LogOk, SafeOk, VendorExt, Serial, CallsOf;
    if a.Unlock? {
      var q := Of(s, a.hart).queue;
      SerialGrows(s.done, Call(a.hart, q[0]));
      assert q == [q[0]] + q[1..];
      Assoc(CallsOf(s.done, a.hart), [q[0]], q[1..]);
    }
  }

  lemma SafeStep(s: State, a: Action)
    requires Inv(s) && Ready(s, a)
    ensures SafeOk(Next(s, a))
  {
    hide LogOk, AskedOk, VendorExt, OutsideOpenSbi;
    if a.Ecall? {
      VendorExtMeaning(a.funcid, a.a0, a.a1);
    }
  }

  lemma StepKeepsInv(s: State, a: Action)
    requires Inv(s) && Ready(s, a)
    ensures Inv(Next(s, a))
  {
    RegsStep(s, a);
    LogStep(s, a);
    AskedStep(s, a);
    SafeStep(s, a);
    hide Next, RegsOk, LockOk, LogOk, AskedOk, SafeOk;
  }

  // ---- Runs ----

  /** The firmware has shared the cache; hart 1 has not started. */
  ghost predicate Init(s: State) {
    s.lock == 0 && !s.busy && s.fw == s.sbi == Worker(Idle, [], []) && s.log == [] && s.done == []
  }

  ghost predicate ValidRun(s: State, run: seq<Action>)
    decreases |run|
  {
    run == [] || (Ready(s, run[0]) && ValidRun(Next(s, run[0]), run[1..]))
  }

  ghost function After(s: State, run: seq<Action>): State
    requires ValidRun(s, run)
    decreases |run|
  {
    if run == [] then s else After(Next(s, run[0]), run[1..])
  }

  lemma {:induction false} RunFrom(s: State, run: seq<Action>)
    requires Inv(s) && ValidRun(s, run)
    ensures Inv(After(s, run))
    decreases |run|
  {
    if run != [] {
      StepKeepsInv(s, run[0]);
      hide Next, Inv;
      RunFrom(Next(s, run[0]), run[1..]);
    }
  }

  lemma RunInv(s: State, run: seq<Action>)
    requires Init(s) && ValidRun(s, run)
    ensures Inv(After(s, run))
  {
    RunFrom(s, run);
  }

  /** However the harts interleave, the engine runs the calls one after the other: each operation
      has the four register values of one call, and all the passes of a call are side by side. */
  lemma OperationsAreSerial(s: State, run: seq<Action>)
    requires Init(s) && ValidRun(s, run)
    ensures var e := After(s, run); e.log == Serial(e.done) + Current(e)
  {
    RunInv(s, run);
  }

  /** The syncs that the firmware asks for, and those of the accepted vendor calls, in order. */
  function FirmwareAsks(run: seq<Action>, acc: seq<Sync>): seq<Sync> {
    if run == [] then acc else FirmwareAsks(run[1..], if run[0].Rom? then acc + [run[0].sync] else acc)
  }

  function LinuxAsks(run: seq<Action>, acc: seq<Sync>): seq<Sync> {
    if run == [] then acc
    else
      LinuxAsks(run[1..],
                if run[0].Ecall? && VendorExt(run[0].funcid, run[0].a0, run[0].a1).Calls?
                then acc + VendorExt(run[0].funcid, run[0].a0, run[0].a1).calls else acc)
  }

  lemma AskStep(s: State, a: Action)
    requires Ready(s, a)
    ensures Next(s, a).fw.asked == if a.Rom? then s.fw.asked + [a.sync] else s.fw.asked
    ensures Next(s, a).sbi.asked ==
            if a.Ecall? && VendorExt(a.funcid, a.a0, a.a1).Calls?
            then s.sbi.asked + VendorExt(a.funcid, a.a0, a.a1).calls else s.sbi.asked
  {
    hide VendorExt;
  }

  lemma {:induction false} AskedIsCalled(s: State, run: seq<Action>)
    requires ValidRun(s, run)
    ensures After(s, run).fw.asked == FirmwareAsks(run, s.fw.asked)
    ensures After(s, run).sbi.asked == LinuxAsks(run, s.sbi.asked)
    decreases |run|
  {
    hide Next, Ready, VendorExt;
    if run != [] {
      AskStep(s, run[0]);
      AskedIsCalled(Next(s, run[0]), run[1..]);
    }
  }

  /** The calls of each hart run in order, each exactly once. */
  lemma CallsRunOnce(s: State, run: seq<Action>)
    requires Init(s) && ValidRun(s, run)
    ensures var e := After(s, run);
            && CallsOf(e.done, Firmware) + e.fw.queue == FirmwareAsks(run, [])
            && CallsOf(e.done, OpenSbi) + e.sbi.queue == LinuxAsks(run, [])
  {
    hide After, ValidRun, Serial, CallsOf, SafeOk, FirmwareAsks, LinuxAsks;
    RunInv(s, run);
    AskedIsCalled(s, run);
  }

  /** No hart touches the engine while an operation runs: a store to a register finds the engine
      at rest. */
  lemma EngineIsIdleAtStores(s: State, run: seq<Action>, a: Action)
    requires Init(s) && ValidRun(s, run) && Ready(After(s, run), a)
    requires a.StoreMap? || a.StoreAddr? || a.StoreSize? || a.StoreCtrl?
    ensures !After(s, run).busy
  {
    RunInv(s, run);
  }

  /** No D-cache invalidate of OpenSBI drops a line of the memory of OpenSBI. */
  lemma InvalidatesSpareOpenSbi(s: State, run: seq<Action>)
    requires Init(s) && ValidRun(s, run)
    ensures Spared(After(s, run).log)
  {
    RunInv(s, run);
  }

  // ---- No deadlock ----

  /** A step that gets somewhere: not one more turn of a wait loop, and not a new call. */
  predicate Progress(s: State, a: Action) {
    && Ready(s, a) && !a.Rom? && !a.Ecall?
    && (a.Exchange? ==> s.lock == 0)
    && (a.LoadCtrl? ==> !s.busy)
  }

  function Advance(s: State, h: Hart): Action {
    if s.busy then EngineEnds
    else
      match Of(s, h).pc
      case SetMap => StoreMap(h)
      case SetAddr => StoreAddr(h)
      case SetSize => StoreSize(h)
      case Start(_) => StoreCtrl(h)
      case Poll(_) => LoadCtrl(h)
      case Release => Unlock(h)
      case _ => Exchange(h)
  }

  lemma CanAdvance(e: State, h: Hart)
    requires RegsOk(e.fw, e.regs) && RegsOk(e.sbi, e.regs) && LockOk(e) && !Of(e, h).pc.Idle?
    requires Inside(Of(e, h)) || e.lock == 0
    ensures Progress(e, Advance(e, h))
  {
  }

  /** The hart that holds the lock, or else one that waits for it, can get on. */
  lemma NoDeadlock(s: State, run: seq<Action>, h: Hart)
    requires Init(s) && ValidRun(s, run) && !Of(After(s, run), h).pc.Idle?
    ensures var e := After(s, run);
            Progress(e, Advance(e, if Inside(e.fw) then Firmware else if Inside(e.sbi) then OpenSbi else h))
  {
    hide After, ValidRun, RegsOk, LogOk, AskedOk, SafeOk, Advance, Progress;
    var e := After(s, run);
    RunInv(s, run);
    CanAdvance(e, if Inside(e.fw) then Firmware else if Inside(e.sbi) then OpenSbi else h);
  }

  /** When no step gets on, every call of both harts has run, and nothing else. */
  lemma AtRestAllIsDone(s: State, run: seq<Action>)
    requires Init(s) && ValidRun(s, run) && forall a :: !Progress(After(s, run), a)
    ensures var e := After(s, run);
            && e.lock == 0 && e.log == Serial(e.done)
            && CallsOf(e.done, Firmware) == FirmwareAsks(run, []) && CallsOf(e.done, OpenSbi) == LinuxAsks(run, [])
  {
    hide After, ValidRun, Serial, CallsOf, SafeOk, Progress, FirmwareAsks, LinuxAsks;
    var e := After(s, run);
    RunInv(s, run);
    CallsRunOnce(s, run);
    if !e.fw.pc.Idle? {
      NoDeadlock(s, run, Firmware);
    }
    if !e.sbi.pc.Idle? {
      NoDeadlock(s, run, OpenSbi);
    }
    NothingMore(CallsOf(e.done, Firmware), e.fw.queue);
    NothingMore(CallsOf(e.done, OpenSbi), e.sbi.queue);
  }

  lemma NothingMore(calls: seq<Sync>, queue: seq<Sync>)
    requires queue == []
    ensures calls + queue == calls
  {
  }
}
