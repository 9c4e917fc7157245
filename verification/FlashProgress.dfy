/**
 The mailbox always gets to the end of its work: each step that the two sides take by themselves
 makes a measure of the state smaller.  So a call that finds the mailbox free and meets no timeout
 comes back with the answer of the flash.
 */
module FlashProgress {
  import opened Words
  import opened FlashMailbox
  import opened FlashCalls

  // ---- The measure ----

  /** What Linux still does in its call. */
  function LinuxCost(lpc: LinuxPc, data: nat, woken: bool): nat {
    match lpc
    case LIdle => Token(woken)
    case LStatus => 1 + Token(woken)
    case LLast => 2 + Token(woken)
    case LSleep => 3 + Token(woken)
    case LLoad => 4 + Token(woken)
    case LPrepare => 5
    case LRing => 26 + Token(woken)
    case LCmd => 27 + Token(woken)
    case LData(done) => 28 + (if done < data then data - done else 0) + Token(woken)
    case LLen => 29 + data + Token(woken)
    case LAddr => 30 + data + Token(woken)
    case LCheck => 31 + data + Token(woken)
  }

  /** A wake-up of Linux that it has not used. */
  function Token(woken: bool): nat {
    if woken then 5 else 0
  }

  /** From the completion of a request to the wake-up of Linux. */
  function WakeCost(irqCleared: bool, doorbell: bool): nat {
    (if irqCleared then 6 else 0) + if doorbell then 7 else 0
  }

  function TaskCost(fpc: FlashPc): nat {
    match fpc
    case FSleep => 0
    case FDone => 8
    case FClear => 9
    case FStatus(_) => 10
    case FDecide(_, _, _) => 11
    case FLen(_, _) => 12
    case FAddr(_) => 13
    case FCmd => 14
  }

  /** From the doorbell of Linux to the kick of the flash task. */
  function KickCost(kick: bool, rxSem: bool, isrCleared: bool, doorbell: bool, rx: RxPc): nat {
    (if kick then 15 else 0) + (if rxSem then 18 else 0) + (if isrCleared then 19 else 0)
    + (if doorbell then 20 else 0)
    + match rx case RSleep => 0 case RCheck => 1 case RService => 17 case RBusy => 18
  }

  function Measure(s: State): nat {
    LinuxCost(s.lpc, |s.request.data|, s.woken) + WakeCost(s.irqCleared, s.doorbellHost) + TaskCost(s.fpc)
    + KickCost(s.kick, s.rxSem, s.isrCleared, s.doorbellFw, s.rx)
  }

  lemma LinuxPosts(s: State, a: Action)
    requires Ready(s, a) && (a.StoreAddr? || a.StoreLen? || a.StoreData? || a.StoreCmd?)
    ensures Measure(Next(s, a)) < Measure(s)
  {
    hide RequestValid, Return, Decided, WakeCost, TaskCost, KickCost;
  }

  lemma LinuxLooks(s: State, a: Action)
    requires Ready(s, a) && (a.RingFw? || a.Prepare? || a.LoadCondition? || a.WakeUp?)
    ensures Measure(Next(s, a)) < Measure(s)
  {
    hide RequestValid, Return, Decided, WakeCost, TaskCost;
  }

  lemma ReturnCost(s: State, reply: Reply)
    requires s.lpc.LCheck? || s.lpc.LLast? || s.lpc.LStatus?
    ensures Measure(Return(s, reply)) < Measure(s)
  {
    hide RequestValid, WakeCost, TaskCost, KickCost;
  }

  lemma LinuxReturns(s: State, a: Action)
    requires Ready(s, a) && (a.LoadCmd? || a.LastLook? || a.LoadStatus?)
    ensures Measure(Next(s, a)) < Measure(s)
  {
    hide RequestValid, Return, Decided, WakeCost, TaskCost, KickCost;
    ReturnCost(s, Busy);
    ReturnCost(s, TimedOut);
    ReturnCost(s, IoError);
    ReturnCost(s, Done);
  }

  lemma TaskLoads(s: State, a: Action)
    requires Ready(s, a) && (a.FwLoadCmd? || a.FwLoadAddr? || a.FwLoadLen?)
    ensures Measure(Next(s, a)) < Measure(s)
  {
    hide RequestValid, Return, Decided, LinuxCost, WakeCost, KickCost;
  }

  lemma TaskEnds(s: State, a: Action)
    requires Ready(s, a) && (a.KickTake? || a.RingHost? || a.StoreStatus? || a.ClearCmd?)
    ensures Measure(Next(s, a)) < Measure(s)
  {
    hide RequestValid, Return, Decided, LinuxCost;
  }

  lemma TaskDecides(s: State, flashError: u32)
    requires s.fpc.FDecide?
    ensures Measure(Decided(s, flashError)) < Measure(s)
  {
    hide Decided, LinuxCost, WakeCost, KickCost;
    DecidedParts(s, flashError);
  }

  lemma KickWorks(s: State, a: Action)
    requires Ready(s, a) && Internal(a)
    requires a.IsrEnter? || a.IsrGive? || a.Service? || a.Check? || a.NextRead? || a.RxTake?
    ensures Measure(Next(s, a)) < Measure(s)
  {
    hide RequestValid, Return, Decided, LinuxCost, WakeCost, TaskCost;
  }

  lemma IrqWorks(s: State, a: Action)
    requires Ready(s, a) && (a.IrqEnter? || a.IrqWake?)
    ensures Measure(Next(s, a)) < Measure(s)
  {
    hide RequestValid, Return, Decided, TaskCost, KickCost;
  }

  /** Each step of the two sides by themselves makes the measure smaller. */
  lemma WorkDecreases(s: State, a: Action)
    requires Ready(s, a) && Internal(a)
    ensures Measure(Next(s, a)) < Measure(s)
  {
    hide Ready, Next, Measure, Decided;
    if a.Decide? {
      DecideIs(s, a.flashError);
      TaskDecides(s, a.flashError);
    } else if a.KickTake? || a.RingHost? || a.StoreStatus? || a.ClearCmd? {
      TaskEnds(s, a);
    } else if a.FwLoadCmd? || a.FwLoadAddr? || a.FwLoadLen? {
      TaskLoads(s, a);
    } else if a.IrqEnter? || a.IrqWake? {
      IrqWorks(s, a);
    } else if a.LoadCmd? || a.LastLook? || a.LoadStatus? {
      LinuxReturns(s, a);
    } else if a.StoreAddr? || a.StoreLen? || a.StoreData? || a.StoreCmd? {
      LinuxPosts(s, a);
    } else if a.RingFw? || a.Prepare? || a.LoadCondition? || a.WakeUp? {
      LinuxLooks(s, a);
    } else {
      KickWorks(s, a);
    }
  }

  // ---- Runs ----

  /** The two sides work by themselves, and the flash answers each operation with `flashError`. */
  ghost predicate Works(a: Action, flashError: u32) {
    Internal(a) && (a.Decide? ==> a.flashError == flashError)
  }

  ghost predicate AllWork(run: seq<Action>, flashError: u32) {
    forall i :: 0 <= i < |run| ==> Works(run[i], flashError)
  }

  /** No endless run of such steps: each has at most as many as the measure says. */
  lemma {:induction false} InternalRunsEnd(s: State, run: seq<Action>)
    requires ValidRun(s, run) && forall i :: 0 <= i < |run| ==> Internal(run[i])
    ensures |run| + Measure(After(s, run)) <= Measure(s)
    decreases |run|
  {
    hide Next, Ready, Measure, Internal;
    if run != [] {
      assert Internal(run[0]);
      WorkDecreases(s, run[0]);
      InternalRunsEnd(Next(s, run[0]), run[1..]);
    }
  }

  /** One that cannot go on is at rest. */
  lemma {:induction false} SomeRunRests(s: State, flashError: u32) returns (run: seq<Action>)
    ensures ValidRun(s, run) && AllWork(run, flashError) && AtRest(After(s, run))
    decreases Measure(s)
  {
    hide Next, Ready, Measure, AtRest, Works, Internal;
    if b :| Internal(b) && Ready(s, b) {
      var a := WithAnswer(s, b, flashError);
      WorkDecreases(s, a);
      var more := SomeRunRests(Next(s, a), flashError);
      run := [a] + more;
      assert run[1..] == more;
    } else {
      NoStepIsRest(s);
      run := [];
    }
  }

  lemma WithAnswer(s: State, a: Action, flashError: u32) returns (b: Action)
    requires Internal(a) && Ready(s, a)
    ensures Works(b, flashError) && Internal(b) && Ready(s, b)
  {
    hide RequestValid;
    b := if a.Decide? then Decide(flashError) else a;
  }

  lemma NoStepIsRest(s: State)
    requires forall a :: Internal(a) ==> !Ready(s, a)
    ensures AtRest(s)
  {
    hide Ready, Internal;
  }

  lemma {:induction false} RunsJoin(s: State, first: seq<Action>, run: seq<Action>)
    requires ValidRun(s, first) && ValidRun(After(s, first), run)
    ensures ValidRun(s, first + run) && After(s, first + run) == After(After(s, first), run)
    decreases |first|
  {
    hide Ready, Next;
    var all := first + run;
    if first == [] {
      assert all == run;
    } else {
      assert all[0] == first[0] && all[1..] == first[1..] + run;
      RunsJoin(Next(s, first[0]), first[1..], run);
    }
  }

  // ---- One call ----

  /** A call after those in `was`, which found the mailbox free and has not met its timeout. */
  ghost predicate Going(s: State, was: seq<Returned>) {
    !s.lpc.LIdle? && !s.lpc.LLast? && s.returned == was && (s.lpc.LCheck? ==> s.box.cmd == 0)
  }

  /** It has come back, with the status of the firmware. */
  ghost predicate Came(s: State, was: seq<Returned>) {
    && s.lpc.LIdle? && |s.returned| == |was| + 1 && was <= s.returned
    && (s.returned[|was|].reply.Done? || s.returned[|was|].reply.IoError?)
  }

  lemma LooksOn(s: State, a: Action, was: seq<Returned>)
    requires Ready(s, a) && Going(s, was)
    requires a.LoadCmd? || a.LoadStatus? || a.LastLook?
    ensures Going(Next(s, a), was) || Came(Next(s, a), was)
  {
    hide RequestValid, Decided;
  }

  lemma LinuxOn(s: State, a: Action, was: seq<Returned>)
    requires Ready(s, a) && Going(s, was)
    requires a.StoreAddr? || a.StoreLen? || a.StoreData? || a.StoreCmd? || a.RingFw? || a.Prepare? ||
             a.LoadCondition? || a.WakeUp?
    ensures Going(Next(s, a), was)
  {
    hide RequestValid, Decided, Return;
  }

  /** A step that is not of the call. */
  ghost predicate Aside(s: State, s': State) {
    s'.lpc == s.lpc && s'.returned == s.returned && (s'.box.cmd == s.box.cmd || s'.box.cmd == 0)
  }

  lemma FirmwareAside(s: State, a: Action)
    requires Ready(s, a) && OfFirmware(a)
    ensures Aside(s, Next(s, a))
  {
    hide RequestValid, Decided, Return;
  }

  lemma WakeAside(s: State, a: Action)
    requires Ready(s, a) && OfWake(a)
    ensures Aside(s, Next(s, a))
  {
    hide RequestValid, Decided, Return;
  }

  lemma AsideKeeps(s: State, s': State, was: seq<Returned>)
    requires Aside(s, s') && (Going(s, was) || Came(s, was))
    ensures Going(s', was) || Came(s', was)
  {
  }

  lemma DecideAside(s: State, flashError: u32)
    requires s.fpc.FDecide?
    ensures Aside(s, Decided(s, flashError))
  {
    hide Decided;
    DecidedParts(s, flashError);
  }

  lemma IdleWaits(s: State, a: Action)
    requires Ready(s, a) && Internal(a) && s.lpc.LIdle?
    ensures a.Decide? || OfFirmware(a) || OfWake(a)
  {
    hide RequestValid;
  }

  lemma StepOn(s: State, a: Action, was: seq<Returned>)
    requires Ready(s, a) && Internal(a) && (Going(s, was) || Came(s, was))
    ensures Going(Next(s, a), was) || Came(Next(s, a), was)
  {
    hide Ready, Next, Decided;
    if s.lpc.LIdle? {
      IdleWaits(s, a);
    }
    hide Going, Came, Aside;
    if a.Decide? {
      DecideIs(s, a.flashError);
      DecideAside(s, a.flashError);
      AsideKeeps(s, Next(s, a), was);
    } else if OfFirmware(a) {
      FirmwareAside(s, a);
      AsideKeeps(s, Next(s, a), was);
    } else if OfWake(a) {
      WakeAside(s, a);
      AsideKeeps(s, Next(s, a), was);
    } else if a.LoadCmd? || a.LoadStatus? || a.LastLook? {
      GoingOnly(s, a, was);
      LooksOn(s, a, was);
    } else {
      GoingOnly(s, a, was);
      LinuxOn(s, a, was);
    }
  }

  lemma GoingOnly(s: State, a: Action, was: seq<Returned>)
    requires (Going(s, was) || Came(s, was)) && !s.lpc.LIdle?
    ensures Going(s, was)
  {
  }

  lemma {:induction false} RunOn(s: State, run: seq<Action>, was: seq<Returned>, flashError: u32)
    requires ValidRun(s, run) && AllWork(run, flashError) && (Going(s, was) || Came(s, was))
    ensures Going(After(s, run), was) || Came(After(s, run), was)
    decreases |run|
  {
    hide Ready, Next, Going, Came;
    if run != [] {
      assert Works(run[0], flashError);
      StepOn(s, run[0], was);
      RunOn(Next(s, run[0]), run[1..], was, flashError);
    }
  }

  lemma {:induction false} NewErrors(s: State, run: seq<Action>, errors: seq<u32>, flashError: u32)
    requires ValidRun(s, run) && AllWork(run, flashError)
    ensures errors <= Errors(s, run, errors)
    ensures forall i :: |errors| <= i < |Errors(s, run, errors)| ==> Errors(s, run, errors)[i] == flashError
    decreases |run|
  {
    hide Ready, Next;
    if run != [] {
      assert Works(run[0], flashError);
      NewErrors(Next(s, run[0]), run[1..], MoreErrors(s, run[0], errors), flashError);
    }
  }

  /** Between two calls, with the mailbox free, everything posted is served. */
  lemma FreeIsServed(s: State)
    requires Inv(s) && s.lpc.LIdle? && s.box.cmd == 0
    ensures |s.served| == |s.posted| == Calls(s.returned)
  {
    hide RequestValid, ReturnedOk, FirmwareOk, LinuxOk, Calls;
  }

  /** The reply of the last call. */
  lemma LastReply(e: State, was: seq<Returned>)
    requires Inv(e) && Came(e, was)
    ensures var r := e.returned[|was|];
            && r.posting == Calls(was) < |e.served| && e.served[r.posting].request == r.request
            && (r.reply.Done? <==> e.served[r.posting].status == 0)
  {
    hide RequestValid, ServedOk, FirmwareOk, LinuxOk, Calls;
    assert e.returned[..|was|] == was;
  }

  /** A call works: whenever Linux calls while the mailbox is free, the two sides can go on by
      themselves until this call has come back, not refused and without a timeout.  Its reply is 0 exactly
      when the firmware takes the request and the flash had no error. */
  lemma CallComesBack(s: State, first: seq<Action>, r: Request, flashError: u32) returns (run: seq<Action>)
    requires Init(s) && ValidRun(s, first)
    requires Ready(After(s, first), Call(r)) && After(s, first).box.cmd == 0
    ensures ValidRun(s, first + [Call(r)] + run) && AllWork(run, flashError)
    ensures var e, was := After(s, first + [Call(r)] + run), After(s, first).returned;
            AtRest(e) && e.returned ==
              was + [Returned(Asked(r), Calls(was),
                              if RequestValid(s.size, r.cmd, r.addr, r.len) && flashError == 0 then Done else IoError)]
  {
    hide Next, Inv, AtRest, RequestValid, AllWork, Calls, StatusesOk, Init, Going, Came, Taken, Asked, Errors;
    var s1, was := After(s, first), After(s, first).returned;
    RunInv(s, first);
    CallStarts(s1, r);
    FreeIsServed(s1);
    hide Ready;
    RunsJoin(s, first, [Call(r)]);
    var s2 := Next(s1, Call(r));
    assert After(s, first + [Call(r)]) == s2;
    run := SomeRunRests(s2, flashError);
    RunsJoin(s, first + [Call(r)], run);
    var e := After(s2, run);
    RunInv(s, first + [Call(r)] + run);
    AtRestNothingWaits(s, first + [Call(r)] + run);
    RunOn(s2, run, was, flashError);
    CameBack(e, was);
    LastReply(e, was);
    StartStatuses(s);
    StatusesAreErrors(s, first + [Call(r)], []);
    LastStatus(s2, run, Errors(s, first + [Call(r)], []), flashError);
    TakenIsAsked(s2, run);
    WorkAsksNothing(run, Taken(s2), flashError);
    assert e.returned[|was|].request == Taken(e)[|was|] == s2.request;
    assert e.returned == was + [e.returned[|was|]];
  }

  lemma CallStarts(s: State, r: Request)
    requires Ready(s, Call(r)) && s.box.cmd == 0
    ensures s.lpc.LIdle? && Going(Next(s, Call(r)), s.returned)
    ensures var s' := Next(s, Call(r));
            && s'.request == Asked(r) && !s'.lpc.LIdle? && s'.returned == s.returned
            && s'.served == s.served && s'.size == s.size
  {
  }

  lemma CameBack(e: State, was: seq<Returned>)
    requires e.lpc.LIdle? && (Going(e, was) || Came(e, was))
    ensures Came(e, was)
    ensures |e.returned| == |was| + 1 && was <= e.returned
    ensures e.returned[|was|].reply.Done? || e.returned[|was|].reply.IoError?
  {
  }

  /** What is served after `s` has the status that the flash gives now. */
  lemma LastStatus(s: State, run: seq<Action>, errors: seq<u32>, flashError: u32)
    requires ValidRun(s, run) && AllWork(run, flashError) && StatusesOk(s.size, s.served, errors)
    ensures forall p :: |s.served| <= p < |After(s, run).served| ==>
              var x := After(s, run).served[p];
              x.status == if RequestValid(s.size, x.request.cmd, x.request.addr, x.request.len) then flashError
                          else ESP_ERR_INVALID_ARG
  {
    hide ValidRun, After, AllWork, RequestValid, Errors;
    StatusesAreErrors(s, run, errors);
    NewErrors(s, run, errors, flashError);
  }

  lemma {:induction false} WorkAsksNothing(run: seq<Action>, acc: seq<Request>, flashError: u32)
    requires AllWork(run, flashError)
    ensures Requests(run, acc) == acc
  {
    if run != [] {
      assert Works(run[0], flashError);
      WorkAsksNothing(run[1..], acc, flashError);
    }
  }
}
