/**
 The flash mailbox between the MTD driver of Linux and the flash task of the firmware, as
 interleaved steps: each step loads or stores one shared word or one data byte.  The wake-ups
 of both sides are part of it: the doorbells, the interrupt handlers, the semaphores of the
 receive task and of the flash task, and the wait queue of Linux.

 `posted`, `served` and `returned` are history.  A request is posted when its command word is
 stored, and served when the firmware decides what to do with it; `returned` has each call
 with its reply, and which posting it was.
 */
module FlashMailbox {
  import opened Words

  const DATA_SIZE := 0x800
  const SECTOR := 0x1000
  const BLOCK := 0x1_0000
  const PROGRAM := 2
  const ERASE := 3
  const ESP_ERR_INVALID_ARG := 0x102

  datatype Request = Request(cmd: u32, addr: u32, len: u32, data: Bytes)

  datatype Reply = Done | IoError | Busy | TimedOut

  datatype Mailbox = Mailbox(cmd: u32, addr: u32, len: u32, status: u32, data: Bytes)

  /** Where esp_shm_flash_cmd() is.  The mutex admits one call at a time. */
  datatype LinuxPc =
    | LIdle | LCheck | LAddr | LLen | LData(done: nat) | LCmd | LRing
    | LPrepare | LLoad | LSleep | LLast | LStatus

  /** Where the flash task is; the words that it has loaded. */
  datatype FlashPc =
    | FSleep | FCmd | FAddr(cmd: u32) | FLen(cmd: u32, addr: u32) | FDecide(cmd: u32, addr: u32, len: u32)
    | FStatus(err: u32) | FClear | FDone

  /** The receive task of the firmware, as far as it forwards the kick. */
  datatype RxPc = RService | RCheck | RSleep | RBusy

  datatype Served = Served(request: Request, status: u32)

  datatype Returned = Returned(request: Request, posting: nat, reply: Reply)

  datatype State = State(
    box: Mailbox, size: nat,
    lpc: LinuxPc, request: Request, woken: bool,
    doorbellFw: bool, isrCleared: bool, rxSem: bool, rx: RxPc, kick: bool,
    fpc: FlashPc,
    doorbellHost: bool, irqCleared: bool,
    posted: seq<Request>, served: seq<Served>, returned: seq<Returned>)

  predicate RequestValid(size: nat, cmd: u32, addr: u32, len: u32) {
    if addr >= size || len > size - addr then false
    else if cmd == ERASE then addr % BLOCK == 0 && len == BLOCK
    else cmd == PROGRAM && len <= DATA_SIZE && addr % SECTOR + len <= SECTOR
  }

  datatype Action =
    | Call(request: Request) | LoadCmd | StoreAddr | StoreLen | StoreData | StoreCmd | RingFw
    | Prepare | LoadCondition | WakeUp | Timeout | LastLook | LoadStatus
    | OtherDoorbell | IsrEnter | IsrGive | Service | Check(empty: bool) | NextRead | RxTake
    | KickTake | FwLoadCmd | FwLoadAddr | FwLoadLen | Decide(flashError: u32) | StoreStatus | ClearCmd | RingHost
    | IrqEnter | IrqWake

  ghost predicate Ready(s: State, a: Action) {
    match a
    case Call(r) =>
      s.lpc.LIdle? && (r.cmd == PROGRAM || r.cmd == ERASE) && (r.cmd == PROGRAM ==> |r.data| == r.len <= DATA_SIZE)
    case LoadCmd => s.lpc.LCheck?
    case StoreAddr => s.lpc.LAddr?
    case StoreLen => s.lpc.LLen?
    case StoreData => s.lpc.LData? && s.lpc.done < |s.request.data| <= |s.box.data| && s.request.cmd == PROGRAM
    case StoreCmd => s.lpc.LCmd?
    case RingFw => s.lpc.LRing?
    case Prepare => s.lpc.LPrepare?
    case LoadCondition => s.lpc.LLoad?
    case WakeUp => s.lpc.LSleep? && s.woken
    case Timeout => s.lpc.LSleep?
    case LastLook => s.lpc.LLast?
    case LoadStatus => s.lpc.LStatus?
    case OtherDoorbell => true
    case IsrEnter => s.doorbellFw && !s.isrCleared
    case IsrGive => s.isrCleared
    case Service => s.rx.RService?
    case Check(_) => s.rx.RCheck?
    case NextRead => s.rx.RBusy?
    case RxTake => s.rx.RSleep? && s.rxSem
    case KickTake => s.fpc.FSleep? && s.kick
    case FwLoadCmd => s.fpc.FCmd?
    case FwLoadAddr => s.fpc.FAddr?
    case FwLoadLen => s.fpc.FLen?
    case Decide(_) => s.fpc.FDecide?
    case StoreStatus => s.fpc.FStatus?
    case ClearCmd => s.fpc.FClear?
    case RingHost => s.fpc.FDone?
    case IrqEnter => s.doorbellHost && !s.irqCleared
    case IrqWake => s.irqCleared
  }

  /** Where the stores of the data end: a request without data goes on at once. */
  function DataPc(r: Request, done: nat): LinuxPc {
    if r.cmd == PROGRAM && done < |r.data| then LData(done) else LCmd
  }

  /** Where shm_flash_service() goes on after its loads, and what it has served then; `flashError` is
      what the flash operation returns. */
  function Verdict(s: State, flashError: u32): (FlashPc, seq<Served>)
    requires s.fpc.FDecide?
  {
    var cmd, addr, len := s.fpc.cmd, s.fpc.addr, s.fpc.len;
    if cmd == 0 then (FSleep, s.served)
    else
      var err := if RequestValid(s.size, cmd, addr, len) then flashError else ESP_ERR_INVALID_ARG;
      var data := if cmd == PROGRAM && len <= |s.box.data| then s.box.data[..len] else [];
      (FStatus(err), s.served + [Served(Request(cmd, addr, len, data), err)])
  }

  function Decided(s: State, flashError: u32): State
    requires s.fpc.FDecide?
  {
    s.(fpc := Verdict(s, flashError).0, served := Verdict(s, flashError).1)
  }

  /** The call returns; its posting is the last one. */
  function Return(s: State, reply: Reply): State {
    var posting := if |s.posted| > 0 then |s.posted| - 1 else 0;
    s.(lpc := LIdle, returned := s.returned + [Returned(s.request, posting, reply)])
  }

  ghost function Next(s: State, a: Action): State
    requires Ready(s, a)
  {
    match a
    case Call(r) =>
      s.(lpc := LCheck, request := if r.cmd == PROGRAM then r else r.(data := []))
    case LoadCmd => if s.box.cmd != 0 then Return(s, Busy) else s.(lpc := LAddr)
    case StoreAddr => s.(box := s.box.(addr := s.request.addr), lpc := LLen)
    case StoreLen => s.(box := s.box.(len := s.request.len), lpc := DataPc(s.request, 0))
    case StoreData =>
      var k := s.lpc.done;
      s.(box := s.box.(data := s.box.data[k := s.request.data[k]]), lpc := DataPc(s.request, k + 1))
    case StoreCmd =>
      s.(box := s.box.(cmd := s.request.cmd), lpc := LRing, posted := s.posted + [s.request])
    case RingFw => s.(doorbellFw := true, lpc := LPrepare)
    case Prepare => s.(woken := false, lpc := LLoad)
    case LoadCondition => s.(lpc := if s.box.cmd == 0 then LStatus else LSleep)
    case WakeUp => s.(lpc := LPrepare)
    case Timeout => s.(lpc := LLast)
    case LastLook => if s.box.cmd == 0 then s.(lpc := LStatus) else Return(s, TimedOut)
    case LoadStatus => Return(s, if s.box.status != 0 then IoError else Done)
    case OtherDoorbell => s.(doorbellFw := true)
    case IsrEnter => s.(doorbellFw := false, isrCleared := true)
    case IsrGive => s.(isrCleared := false, rxSem := true)
    case Service => s.(kick := true, rx := RCheck)
    case Check(empty) => s.(rx := if empty then RSleep else RBusy)
    case NextRead => s.(rx := RService)
    case RxTake => s.(rxSem := false, rx := RService)
    case KickTake => s.(kick := false, fpc := FCmd)
    case FwLoadCmd => s.(fpc := FAddr(s.box.cmd))
    case FwLoadAddr => s.(fpc := FLen(s.fpc.cmd, s.box.addr))
    case FwLoadLen => s.(fpc := FDecide(s.fpc.cmd, s.fpc.addr, s.box.len))
    case Decide(flashError) => Decided(s, flashError)
    case StoreStatus => s.(box := s.box.(status := s.fpc.err), fpc := FClear)
    case ClearCmd => s.(box := s.box.(cmd := 0), fpc := FDone)
    case RingHost => s.(doorbellHost := true, fpc := FSleep)
    case IrqEnter => s.(doorbellHost := false, irqCleared := true)
    case IrqWake => s.(irqCleared := false, woken := true)
  }

  // ---- The invariant ----

  ghost predicate RequestOk(r: Request) {
    && (r.cmd == PROGRAM || r.cmd == ERASE)
    && |r.data| == (if r.cmd == PROGRAM then r.len else 0) && |r.data| <= DATA_SIZE
  }

  /** The mailbox words are those of the request. */
  ghost predicate Shows(box: Mailbox, r: Request) {
    RequestOk(r) && box.addr == r.addr && box.len == r.len && r.data <= box.data
  }

  /** Linux is in a call and has posted its request. */
  ghost predicate Waiting(lpc: LinuxPc) {
    lpc.LRing? || lpc.LPrepare? || lpc.LLoad? || lpc.LSleep? || lpc.LLast? || lpc.LStatus?
  }

  ghost predicate Writing(lpc: LinuxPc) {
    lpc.LAddr? || lpc.LLen? || lpc.LData? || lpc.LCmd?
  }

  ghost predicate AllRequestsOk(posted: seq<Request>) {
    forall i :: 0 <= i < |posted| ==> RequestOk(posted[i])
  }

  ghost predicate LinuxOk(lpc: LinuxPc, request: Request, box: Mailbox, posted: seq<Request>) {
    && |box.data| == DATA_SIZE
    && (!lpc.LIdle? ==> RequestOk(request))
    && (Writing(lpc) ==> box.cmd == 0)
    && (lpc.LLen? || lpc.LData? || lpc.LCmd? ==> box.addr == request.addr)
    && (lpc.LData? || lpc.LCmd? ==> box.len == request.len)
    && (lpc.LData? ==> request.cmd == PROGRAM && lpc.done < |request.data|
                       && box.data[..lpc.done] == request.data[..lpc.done])
    && (lpc.LCmd? ==> Shows(box, request))
    && (Waiting(lpc) ==> posted != [] && posted[|posted| - 1] == request)
    && (lpc.LStatus? ==> box.cmd == 0)
    && AllRequestsOk(posted)
    && (box.cmd != 0 ==> posted != [] && box.cmd == posted[|posted| - 1].cmd && Shows(box, posted[|posted| - 1]))
  }

  /** The firmware has served the posted requests in order; at most the last one is open. */
  ghost predicate ServedOk(size: nat, cmd: u32, fpc: FlashPc, posted: seq<Request>, served: seq<Served>) {
    && |served| == |posted| - (if cmd != 0 && !fpc.FStatus? && !fpc.FClear? then 1 else 0)
    && (forall i :: 0 <= i < |served| ==> served[i].request == posted[i])
    && (forall i :: 0 <= i < |served| ==>
          var r := posted[i];
          !RequestValid(size, r.cmd, r.addr, r.len) ==> served[i].status == ESP_ERR_INVALID_ARG)
  }

  ghost predicate FirmwareOk(box: Mailbox, fpc: FlashPc, served: seq<Served>) {
    && (fpc.FAddr? && fpc.cmd != 0 ==> box.cmd == fpc.cmd)
    && (fpc.FLen? && fpc.cmd != 0 ==> box.cmd == fpc.cmd && box.addr == fpc.addr)
    && (fpc.FDecide? && fpc.cmd != 0 ==> box.cmd == fpc.cmd && box.addr == fpc.addr && box.len == fpc.len)
    && (fpc.FStatus? || fpc.FClear? ==> box.cmd != 0 && served != [])
    && (fpc.FStatus? ==> fpc.err == served[|served| - 1].status)
    && (served != [] && !fpc.FStatus? && (box.cmd == 0 || fpc.FClear?) ==>
          box.status == served[|served| - 1].status)
  }

  /** Each reply is about its own request: a status is the one of its posting. */
  ghost predicate ReturnedOk(posted: seq<Request>, served: seq<Served>, returned: seq<Returned>) {
    forall k :: 0 <= k < |returned| ==>
      var r := returned[k];
      && (r.reply.TimedOut? ==> r.posting < |posted| && posted[r.posting] == r.request)
      && (r.reply.Done? || r.reply.IoError? ==>
            && r.posting < |served| && served[r.posting].request == r.request
            && (r.reply.Done? <==> served[r.posting].status == 0))
  }

  /** The calls that posted their request. */
  ghost function Calls(returned: seq<Returned>): nat {
    if returned == [] then 0
    else Calls(returned[..|returned| - 1]) + if returned[|returned| - 1].reply.Busy? then 0 else 1
  }

  /** The calls report their own postings, in order, without a gap: no two report the same one,
      and none reports the one of the call that runs. */
  ghost predicate PostingsOk(limit: nat, returned: seq<Returned>) {
    && limit == Calls(returned)
    && (forall k :: 0 <= k < |returned| && !returned[k].reply.Busy? ==> returned[k].posting == Calls(returned[..k]))
  }

  /** The postings of the calls that are over. */
  ghost function Over(lpc: LinuxPc, posted: seq<Request>): nat {
    if Waiting(lpc) && posted != [] then |posted| - 1 else |posted|
  }

  /** The flash task will not look at the command word before its next kick. */
  ghost predicate Unseen(fpc: FlashPc) {
    fpc.FSleep? || fpc.FDone? || ((fpc.FAddr? || fpc.FLen? || fpc.FDecide?) && fpc.cmd == 0)
  }

  ghost predicate KickComes(s: State) {
    s.kick || s.rx.RService? || s.rx.RBusy? || s.rxSem || s.isrCleared || s.doorbellFw
  }

  ghost predicate WakeComes(s: State) {
    s.woken || s.fpc.FDone? || s.doorbellHost || s.irqCleared
  }

  ghost predicate Inv(s: State) {
    && LinuxOk(s.lpc, s.request, s.box, s.posted)
    && ServedOk(s.size, s.box.cmd, s.fpc, s.posted, s.served)
    && FirmwareOk(s.box, s.fpc, s.served)
    && ReturnedOk(s.posted, s.served, s.returned)
    && PostingsOk(Over(s.lpc, s.posted), s.returned)
    && (s.box.cmd != 0 && !s.lpc.LRing? && Unseen(s.fpc) ==> KickComes(s))
    && (s.lpc.LSleep? && s.box.cmd == 0 ==> WakeComes(s))
  }

  lemma LinuxStarts(s: State, a: Action)
    requires Inv(s) && Ready(s, a) && (a.Call? || a.StoreAddr? || a.StoreLen? || a.RingFw?)
    ensures Inv(Next(s, a))
  {
    hide ReturnedOk, PostingsOk, ServedOk, RequestValid;
  }

  lemma LinuxWaits(s: State, a: Action)
    requires Inv(s) && Ready(s, a)
    requires a.Prepare? || a.LoadCondition? || a.WakeUp? || a.Timeout?
    ensures Inv(Next(s, a))
  {
    hide ReturnedOk, PostingsOk, ServedOk, RequestValid;
  }

  lemma ReturnKeeps(posted: seq<Request>, served: seq<Served>, returned: seq<Returned>, r: Returned)
    requires ReturnedOk(posted, served, returned)
    requires !r.reply.Busy? ==> r.posting < |posted| && posted[r.posting] == r.request
    requires r.reply.Done? || r.reply.IoError? ==>
               r.posting < |served| && served[r.posting].request == r.request
               && (r.reply.Done? <==> served[r.posting].status == 0)
    ensures ReturnedOk(posted, served, returned + [r])
  {
  }

  lemma PostingsGrow(limit: nat, limit': nat, returned: seq<Returned>, r: Returned)
    requires PostingsOk(limit, returned)
    requires if r.reply.Busy? then limit' == limit else r.posting == limit && limit' == limit + 1
    ensures PostingsOk(limit', returned + [r])
  {
    var all := returned + [r];
    assert all[..|returned|] == returned;
    forall k | 0 <= k < |all| && !all[k].reply.Busy? ensures all[k].posting == Calls(all[..k]) {
      if k < |returned| {
        assert all[..k] == returned[..k];
      }
    }
  }

  lemma {:induction false} CallsGrow(returned: seq<Returned>, j: nat, k: nat)
    requires j <= k <= |returned|
    ensures Calls(returned[..j]) <= Calls(returned[..k])
    ensures (forall i :: j <= i < k ==> !returned[i].reply.Busy?) ==> Calls(returned[..k]) == Calls(returned[..j]) + (k - j)
    decreases k
  {
    if j < k {
      CallsGrow(returned, j, k - 1);
      assert returned[..k][..k - 1] == returned[..k - 1];
    }
  }

  /** No two calls report the same posting. */
  lemma PostingsDiffer(limit: nat, returned: seq<Returned>, j: nat, k: nat)
    requires PostingsOk(limit, returned) && j < k < |returned|
    requires !returned[j].reply.Busy? && !returned[k].reply.Busy?
    ensures returned[j].posting < returned[k].posting < limit
  {
    hide Calls;
    CallsNext(returned, j);
    CallsNext(returned, k);
    CallsGrow(returned, j + 1, k);
    CallsGrow(returned, k + 1, |returned|);
    assert returned[..|returned|] == returned;
  }

  lemma CallsNext(returned: seq<Returned>, j: nat)
    requires j < |returned| && !returned[j].reply.Busy?
    ensures Calls(returned[..j + 1]) == Calls(returned[..j]) + 1
  {
    assert returned[..j + 1][..j] == returned[..j];
  }

  /** The status that a call loads is the one of its own request. */
  lemma StatusIsOwn(s: State)
    requires LinuxOk(s.lpc, s.request, s.box, s.posted) && FirmwareOk(s.box, s.fpc, s.served)
    requires ServedOk(s.size, s.box.cmd, s.fpc, s.posted, s.served) && s.lpc.LStatus?
    ensures var n := |s.posted|;
            && n > 0 && |s.served| == n && s.posted[n - 1] == s.request
            && s.served[n - 1].request == s.request && s.served[n - 1].status == s.box.status
  {
    hide RequestValid, Shows, RequestOk;
  }

  lemma ReturnInv(s: State, reply: Reply)
    requires Inv(s)
    requires s.lpc.LCheck? || s.lpc.LLast? || s.lpc.LStatus?
    requires match reply
             case Busy => s.lpc.LCheck?
             case TimedOut => s.lpc.LLast?
             case _ => s.lpc.LStatus? && reply == if s.box.status != 0 then IoError else Done
    ensures Inv(Return(s, reply))
  {
    hide RequestValid, ReturnedOk, PostingsOk, ServedOk, FirmwareOk, Shows, RequestOk, AllRequestsOk;
    if s.lpc.LStatus? {
      StatusIsOwn(s);
    }
    var r := Return(s, reply).returned[|s.returned|];
    ReturnKeeps(s.posted, s.served, s.returned, r);
    PostingsGrow(Over(s.lpc, s.posted), |s.posted|, s.returned, r);
  }

  lemma LinuxReturns(s: State, a: Action)
    requires Inv(s) && Ready(s, a) && (a.LoadCmd? || a.LastLook? || a.LoadStatus?)
    ensures Inv(Next(s, a))
  {
    if a.LoadStatus? {
      ReturnInv(s, if s.box.status != 0 then IoError else Done);
    } else if s.box.cmd != 0 {
      ReturnInv(s, if a.LoadCmd? then Busy else TimedOut);
    }
    hide Return, RequestValid, ReturnedOk, PostingsOk, ServedOk, FirmwareOk, Shows, RequestOk;
  }

  lemma LinuxCopies(s: State)
    requires Inv(s) && Ready(s, StoreData)
    ensures Inv(Next(s, StoreData))
  {
    hide RequestValid, ServedOk, ReturnedOk, PostingsOk, AllRequestsOk;
  }

  /** What was returned stays right when a request is posted. */
  lemma PostKeepsReturned(posted: seq<Request>, served: seq<Served>, returned: seq<Returned>, r: Request)
    requires ReturnedOk(posted, served, returned)
    ensures ReturnedOk(posted + [r], served, returned)
  {
  }

  lemma PostKeepsRequests(posted: seq<Request>, r: Request)
    requires AllRequestsOk(posted) && RequestOk(r)
    ensures AllRequestsOk(posted + [r])
  {
    hide RequestOk;
  }

  lemma LinuxPosts(s: State)
    requires Inv(s) && Ready(s, StoreCmd)
    ensures Inv(Next(s, StoreCmd))
  {
    hide RequestValid, ReturnedOk, PostingsOk, AllRequestsOk;
    PostKeepsReturned(s.posted, s.served, s.returned, s.request);
    PostKeepsRequests(s.posted, s.request);
  }

  lemma WakeStep(s: State, a: Action)
    requires Inv(s) && Ready(s, a)
    requires a.OtherDoorbell? || a.IsrEnter? || a.IsrGive? || a.Service? || a.Check? || a.NextRead? ||
             a.RxTake? || a.KickTake? || a.IrqEnter? || a.IrqWake?
    ensures Inv(Next(s, a))
  {
    hide ReturnedOk, PostingsOk, LinuxOk, RequestValid;
  }

  lemma FirmwareLoads(s: State, a: Action)
    requires Inv(s) && Ready(s, a) && (a.FwLoadCmd? || a.FwLoadAddr? || a.FwLoadLen?)
    ensures Inv(Next(s, a))
  {
    hide ReturnedOk, PostingsOk, RequestValid, LinuxOk;
  }

  /** What the firmware serves is the open request, word for word. */
  lemma OpenIsServed(s: State, flashError: u32)
    requires LinuxOk(s.lpc, s.request, s.box, s.posted) && FirmwareOk(s.box, s.fpc, s.served)
    requires s.fpc.FDecide? && s.fpc.cmd != 0
    ensures s.posted != []
    ensures var r := s.posted[|s.posted| - 1];
            var served := Served(r, if RequestValid(s.size, r.cmd, r.addr, r.len) then flashError else ESP_ERR_INVALID_ARG);
            Decided(s, flashError) == s.(fpc := FStatus(served.status), served := s.served + [served])
  {
    hide RequestValid;
    var r := s.posted[|s.posted| - 1];
    assert r.data == s.box.data[..|r.data|];
  }

  lemma ServeKeeps(size: nat, cmd: u32, fpc: FlashPc, fpc': FlashPc, posted: seq<Request>, served: seq<Served>, x: Served)
    requires ServedOk(size, cmd, fpc, posted, served) && fpc.FDecide? && cmd != 0 && fpc'.FStatus?
    requires posted != [] && x.request == posted[|posted| - 1]
    requires !RequestValid(size, x.request.cmd, x.request.addr, x.request.len) ==> x.status == ESP_ERR_INVALID_ARG
    ensures ServedOk(size, cmd, fpc', posted, served + [x])
    ensures forall returned :: ReturnedOk(posted, served, returned) ==> ReturnedOk(posted, served + [x], returned)
  {
    hide RequestValid;
  }

  lemma ServeInv(s: State, flashError: u32)
    requires Inv(s) && s.fpc.FDecide? && s.fpc.cmd != 0
    ensures Inv(Decided(s, flashError))
  {
    hide RequestValid, ReturnedOk, PostingsOk, Shows, RequestOk, KickComes;
    OpenIsServed(s, flashError);
    hide Decided;
    var s' := Decided(s, flashError);
    ServeKeeps(s.size, s.box.cmd, s.fpc, s'.fpc, s.posted, s.served, s'.served[|s.served|]);
    hide ServedOk, LinuxOk;
  }

  lemma FirmwareDecides(s: State, a: Action)
    requires Inv(s) && Ready(s, a) && a.Decide?
    ensures Inv(Next(s, a))
  {
    hide RequestValid, ReturnedOk, PostingsOk, Shows, RequestOk;
    if s.fpc.cmd != 0 {
      hide Inv, Decided;
      ServeInv(s, a.flashError);
    }
  }

  lemma EndsKeepLinux(lpc: LinuxPc, request: Request, box: Mailbox, posted: seq<Request>, status: u32)
    requires LinuxOk(lpc, request, box, posted)
    ensures LinuxOk(lpc, request, box.(status := status), posted)
    ensures LinuxOk(lpc, request, box.(cmd := 0), posted)
  {
    hide RequestOk;
  }

  lemma FirmwareEnds(s: State, a: Action)
    requires Inv(s) && Ready(s, a) && (a.StoreStatus? || a.ClearCmd? || a.RingHost?)
    ensures Inv(Next(s, a))
  {
    hide ReturnedOk, PostingsOk, RequestValid, LinuxOk;
    if a.StoreStatus? {
      EndsKeepLinux(s.lpc, s.request, s.box, s.posted, s.fpc.err);
    } else if a.ClearCmd? {
      EndsKeepLinux(s.lpc, s.request, s.box, s.posted, 0);
    }
  }

  lemma StepKeepsInv(s: State, a: Action)
    requires Inv(s) && Ready(s, a)
    ensures Inv(Next(s, a))
  {
    hide Inv, Next, Ready;
    if a.Call? || a.StoreAddr? || a.StoreLen? || a.RingFw? {
      LinuxStarts(s, a);
    } else if a.Prepare? || a.LoadCondition? || a.WakeUp? || a.Timeout? {
      LinuxWaits(s, a);
    } else if a.LoadCmd? || a.LastLook? || a.LoadStatus? {
      LinuxReturns(s, a);
    } else if a.StoreData? {
      LinuxCopies(s);
    } else if a.StoreCmd? {
      LinuxPosts(s);
    } else if a.FwLoadCmd? || a.FwLoadAddr? || a.FwLoadLen? {
      FirmwareLoads(s, a);
    } else if a.Decide? {
      FirmwareDecides(s, a);
    } else if a.StoreStatus? || a.ClearCmd? || a.RingHost? {
      FirmwareEnds(s, a);
    } else {
      WakeStep(s, a);
    }
  }

  // ---- Every run ----

  ghost predicate Init(s: State) {
    && s.box.cmd == 0 && |s.box.data| == DATA_SIZE
    && s.lpc.LIdle? && s.fpc.FSleep?
    && s.posted == [] && s.served == [] && s.returned == []
  }

  ghost predicate ValidRun(s: State, run: seq<Action>)
    decreases |run|
  {
    run == [] || (Ready(s, run[0]) && ValidRun(Next(s, run[0]), run[1..]))
  }

  ghost function After(s: State, run: seq<Action>): State
    requires ValidRun(s, run)
    decreases |run|
  {
    if run == [] then s else After(Next(s, run[0]), run[1..])
  }

  lemma {:induction false} RunKeepsInv(s: State, run: seq<Action>)
    requires Inv(s) && ValidRun(s, run)
    ensures Inv(After(s, run))
    decreases |run|
  {
    hide Inv, Next, Ready;
    if run != [] {
      StepKeepsInv(s, run[0]);
      RunKeepsInv(Next(s, run[0]), run[1..]);
    }
  }

  lemma RunInv(s: State, run: seq<Action>)
    requires Init(s) && ValidRun(s, run)
    ensures Inv(After(s, run))
  {
    hide Next, Ready, ValidRun, After;
    assert Inv(s);
    hide Inv;
    RunKeepsInv(s, run);
  }

  /** Each posted request is served at most once, in order, and with exactly its words; a
      request that is not valid gets the invalid-argument status; at most one is open. */
  lemma ServedExactlyOnce(s: State, run: seq<Action>)
    requires Init(s) && ValidRun(s, run)
    ensures var e := After(s, run);
            && |e.posted| - 1 <= |e.served| <= |e.posted|
            && (forall i :: 0 <= i < |e.served| ==> e.served[i].request == e.posted[i])
            && (forall i :: 0 <= i < |e.served| ==>
                  var r := e.posted[i];
                  !RequestValid(e.size, r.cmd, r.addr, r.len) ==> e.served[i].status == ESP_ERR_INVALID_ARG)
            && (e.box.cmd == 0 ==> |e.served| == |e.posted|)
  {
    hide After, ValidRun, RequestValid, LinuxOk, ReturnedOk, PostingsOk;
    RunInv(s, run);
  }

  lemma OpenStep(e: State, a: Action)
    requires !Writing(e.lpc) && Ready(e, a) && e.box.cmd != 0
    ensures var e' := Next(e, a);
            && e'.box.addr == e.box.addr && e'.box.len == e.box.len && e'.box.data == e.box.data
            && (e'.box.cmd == e.box.cmd || (a.ClearCmd? && e'.box.cmd == 0))
  {
    hide RequestValid, Return, Decided;
    match a
    case ClearCmd =>
    case StoreStatus =>
    case StoreAddr => assert false;
    case StoreLen => assert false;
    case StoreData => assert false;
    case StoreCmd => assert false;
    case _ =>
      if a.LoadCmd? || a.LastLook? || a.LoadStatus? {
        LoadLeaves(e, a);
      } else if OfLinux(a) {
        LinuxLeaves(e, a);
      } else if OfTask(a) {
        TaskLeaves(e, a);
      } else {
        WakeLeaves(e, a);
      }
  }

  /** Only the stores to the mailbox change it. */
  ghost predicate Stores(a: Action) {
    a.StoreAddr? || a.StoreLen? || a.StoreData? || a.StoreCmd? || a.StoreStatus? || a.ClearCmd?
  }

  ghost predicate OfLinux(a: Action) {
    || a.Call? || a.LoadCmd? || a.RingFw? || a.Prepare? || a.LoadCondition? || a.WakeUp? || a.Timeout?
    || a.LastLook? || a.LoadStatus?
  }

  ghost predicate OfTask(a: Action) {
    a.KickTake? || a.FwLoadCmd? || a.FwLoadAddr? || a.FwLoadLen? || a.Decide? || a.RingHost?
  }

  lemma LinuxLeaves(e: State, a: Action)
    requires Ready(e, a) && (a.Call? || a.RingFw? || a.Prepare? || a.LoadCondition? || a.WakeUp? || a.Timeout?)
    ensures Next(e, a).box == e.box
  {
    hide RequestValid;
  }

  lemma LoadLeaves(e: State, a: Action)
    requires Ready(e, a) && (a.LoadCmd? || a.LastLook? || a.LoadStatus?)
    ensures Next(e, a).box == e.box
  {
    hide RequestValid, Return, Decided;
    ReturnLeaves(e, Busy);
    ReturnLeaves(e, TimedOut);
    ReturnLeaves(e, IoError);
    ReturnLeaves(e, Done);
  }

  lemma ReturnLeaves(e: State, reply: Reply)
    ensures Return(e, reply).box == e.box
  {
  }

  lemma DecisionLeaves(e: State, flashError: u32)
    requires e.fpc.FDecide?
    ensures Decided(e, flashError).box == e.box
  {
    hide Verdict;
  }

  lemma TaskLeaves(e: State, a: Action)
    requires Ready(e, a) && OfTask(a)
    ensures Next(e, a).box == e.box
  {
    hide Decided, RequestValid, Return;
    match a
    case Decide(flashError) => DecisionLeaves(e, flashError);
    case _ =>
  }

  lemma WakeLeaves(e: State, a: Action)
    requires Ready(e, a) && !Stores(a) && !OfLinux(a) && !OfTask(a)
    ensures Next(e, a).box == e.box
  {
    hide RequestValid, Return, Decided;
    match a
    case IsrEnter =>
    case IsrGive =>
    case Service =>
    case Check(_) =>
    case _ =>
  }

  /** While the command word is set, no step changes the request in the mailbox. */
  lemma OpenRequestIsStable(s: State, run: seq<Action>, a: Action)
    requires Init(s) && ValidRun(s, run) && Ready(After(s, run), a) && After(s, run).box.cmd != 0
    ensures var e := After(s, run);
            var e' := Next(e, a);
            && e'.box.addr == e.box.addr && e'.box.len == e.box.len && e'.box.data == e.box.data
            && (e'.box.cmd == e.box.cmd || (a.ClearCmd? && e'.box.cmd == 0))
  {
    RunInv(s, run);
    OpenStep(After(s, run), a);
    hide *;
  }

  /** A step that the system can take by itself: no new call, no timeout, no other doorbell, and
      the frame ring is empty. */
  ghost predicate Internal(a: Action) {
    !a.Call? && !a.Timeout? && !a.OtherDoorbell? && a != Check(false)
  }

  ghost predicate AtRest(s: State) {
    forall a :: Internal(a) ==> !Ready(s, a)
  }

  lemma NotReady(s: State, a: Action)
    requires AtRest(s) && Internal(a)
    ensures !Ready(s, a)
  {
    hide Ready;
  }

  lemma TaskRests(s: State)
    requires AtRest(s)
    ensures s.fpc.FSleep? && !s.kick
  {
    hide AtRest, RequestValid;
    match s.fpc
    case FSleep => NotReady(s, KickTake);
    case FCmd => NotReady(s, FwLoadCmd);
    case FAddr(_) => NotReady(s, FwLoadAddr);
    case FLen(_, _) => NotReady(s, FwLoadLen);
    case FDecide(_, _, _) => NotReady(s, Decide(0));
    case FStatus(_) => NotReady(s, StoreStatus);
    case FClear => NotReady(s, ClearCmd);
    case FDone => NotReady(s, RingHost);
  }

  lemma FirmwareRests(s: State)
    requires AtRest(s)
    ensures s.fpc.FSleep? && !KickComes(s) && !s.doorbellHost && !s.irqCleared
  {
    hide AtRest;
    TaskRests(s);
    NotReady(s, IsrEnter);
    NotReady(s, IsrGive);
    NotReady(s, IrqEnter);
    NotReady(s, IrqWake);
    match s.rx
    case RService => NotReady(s, Service);
    case RCheck => NotReady(s, Check(true));
    case RBusy => NotReady(s, NextRead);
    case RSleep => NotReady(s, RxTake);
  }

  lemma LinuxRests(s: State)
    requires AtRest(s) && (s.lpc.LData? ==> s.lpc.done < |s.request.data| <= |s.box.data| && s.request.cmd == PROGRAM)
    ensures s.lpc.LIdle? || (s.lpc.LSleep? && !s.woken)
  {
    hide AtRest;
    match s.lpc
    case LIdle =>
    case LCheck => NotReady(s, LoadCmd);
    case LAddr => NotReady(s, StoreAddr);
    case LLen => NotReady(s, StoreLen);
    case LData(_) => NotReady(s, StoreData);
    case LCmd => NotReady(s, StoreCmd);
    case LRing => NotReady(s, RingFw);
    case LPrepare => NotReady(s, Prepare);
    case LLoad => NotReady(s, LoadCondition);
    case LSleep => NotReady(s, WakeUp);
    case LLast => NotReady(s, LastLook);
    case LStatus => NotReady(s, LoadStatus);
  }

  /** No lost wake-up of the two sides: when the system cannot take a step by itself, the mailbox
      is free, every posted request is served, and no call waits for its timeout. */
  lemma AtRestNothingWaits(s: State, run: seq<Action>)
    requires Init(s) && ValidRun(s, run) && AtRest(After(s, run))
    ensures var e := After(s, run); e.box.cmd == 0 && |e.served| == |e.posted| && e.lpc.LIdle?
  {
    hide After, ValidRun, AtRest, RequestValid, ReturnedOk, PostingsOk, Shows;
    RunInv(s, run);
    FirmwareRests(After(s, run));
    LinuxRests(After(s, run));
  }
}
