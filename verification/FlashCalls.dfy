/**
 What the two callers of the mailbox contribute to a run: the requests of the MTD driver, and the
 answers of the flash.  Both are read off the actions of the run, not off the state.
 */
module FlashCalls {
  import opened Words
  import opened FlashMailbox

  // ---- The requests ----

  /** What a call asks for; only a program has data. */
  function Asked(r: Request): (q: Request)
    ensures q.cmd == r.cmd && q.addr == r.addr && q.len == r.len
    ensures q.data == if r.cmd == PROGRAM then r.data else []
  {
    Request(r.cmd, r.addr, r.len, if r.cmd == PROGRAM then r.data else [])
  }

  /** The requests of all calls, in order, after those in `acc`. */
  function Requests(run: seq<Action>, acc: seq<Request>): seq<Request> {
    if run == [] then acc
    else Requests(run[1..], if run[0].Call? then acc + [Asked(run[0].request)] else acc)
  }

  /** The requests of the calls that have returned, and of the one that runs. */
  function Taken(s: State): (rs: seq<Request>)
    ensures |rs| == |s.returned| + if s.lpc.LIdle? then 0 else 1
    ensures forall k :: 0 <= k < |s.returned| ==> rs[k] == s.returned[k].request
    ensures !s.lpc.LIdle? ==> rs[|s.returned|] == s.request
  {
    seq(|s.returned|, i requires 0 <= i < |s.returned| => s.returned[i].request)
    + if s.lpc.LIdle? then [] else [s.request]
  }

  /** A step inside of a call, or without a part in it. */
  ghost predicate SameCalls(s: State, s': State) {
    s'.returned == s.returned && s'.request == s.request && (s'.lpc.LIdle? <==> s.lpc.LIdle?)
  }

  lemma SameTaken(s: State, s': State)
    requires SameCalls(s, s')
    ensures Taken(s') == Taken(s)
  {
  }

  /** A step without a part in what was served or what the flash window is. */
  ghost predicate Spares(s: State, s': State) {
    s'.served == s.served && s'.size == s.size
  }

  lemma CallTaken(s: State, r: Request)
    requires Ready(s, Call(r))
    ensures Taken(Next(s, Call(r))) == Taken(s) + [Asked(r)] && Spares(s, Next(s, Call(r)))
  {
  }

  /** Which step ends a call, and with which reply. */
  lemma ReplyStep(s: State, a: Action)
    requires Ready(s, a) && (a.LoadCmd? || a.LastLook? || a.LoadStatus?)
    ensures var reply := if a.LoadStatus? then (if s.box.status == 0 then Done else IoError)
                         else if a.LoadCmd? then Busy else TimedOut;
            var posting := if |s.posted| > 0 then |s.posted| - 1 else 0;
            Next(s, a).returned ==
              if a.LoadStatus? || s.box.cmd != 0 then s.returned + [Returned(s.request, posting, reply)]
              else s.returned
    ensures Taken(Next(s, a)) == Taken(s) && Spares(s, Next(s, a))
  {
    hide Taken, Return;
    if a.LoadStatus? || s.box.cmd != 0 {
      ReturnEnds(s, if a.LoadStatus? then (if s.box.status == 0 then Done else IoError)
                    else if a.LoadCmd? then Busy else TimedOut);
    } else {
      SameTaken(s, Next(s, a));
    }
  }

  lemma ReturnEnds(s: State, reply: Reply)
    requires !s.lpc.LIdle?
    ensures Taken(Return(s, reply)) == Taken(s) && Spares(s, Return(s, reply))
    ensures Return(s, reply).returned ==
            s.returned + [Returned(s.request, if |s.posted| > 0 then |s.posted| - 1 else 0, reply)]
  {
  }

  lemma OtherLinuxStep(s: State, a: Action)
    requires Ready(s, a)
    requires a.StoreAddr? || a.StoreLen? || a.StoreData? || a.StoreCmd? || a.RingFw? || a.Prepare? ||
             a.LoadCondition? || a.WakeUp? || a.Timeout?
    ensures SameCalls(s, Next(s, a)) && Spares(s, Next(s, a))
  {
    hide Return, Decided;
  }

  ghost predicate Loads(a: Action) {
    a.KickTake? || a.FwLoadCmd? || a.FwLoadAddr? || a.FwLoadLen?
  }

  ghost predicate Completes(a: Action) {
    a.StoreStatus? || a.ClearCmd? || a.RingHost?
  }

  ghost predicate OfFirmware(a: Action) {
    Loads(a) || Completes(a)
  }

  lemma LoadStep(s: State, a: Action)
    requires Ready(s, a) && Loads(a)
    ensures SameCalls(s, Next(s, a)) && Spares(s, Next(s, a))
  {
    hide RequestValid, Return, Decided;
  }

  lemma CompleteStep(s: State, a: Action)
    requires Ready(s, a) && Completes(a)
    ensures SameCalls(s, Next(s, a)) && Spares(s, Next(s, a))
  {
    hide RequestValid, Return, Decided;
  }

  lemma DecidedParts(s: State, flashError: u32)
    requires s.fpc.FDecide?
    ensures var s' := Decided(s, flashError);
            && s' == s.(fpc := s'.fpc, served := s'.served)
            && (s'.fpc.FSleep? || s'.fpc.FStatus?)
  {
    hide RequestValid;
  }

  lemma SameParts(s: State, s': State)
    requires s' == s.(fpc := s'.fpc, served := s'.served)
    ensures SameCalls(s, s') && s'.size == s.size
  {
  }

  /** The flash task serves what it has found, and answers for the flash or refuses. */
  lemma DecideStep(s: State, flashError: u32)
    requires s.fpc.FDecide?
    ensures var served := Decided(s, flashError).served;
            if s.fpc.cmd == 0 then served == s.served
            else
              && |served| == |s.served| + 1 && s.served <= served
              && var r := served[|s.served|].request;
                 served[|s.served|].status ==
                   if RequestValid(s.size, r.cmd, r.addr, r.len) then flashError else ESP_ERR_INVALID_ARG
  {
    hide RequestValid;
  }

  ghost predicate OfIrq(a: Action) {
    a.OtherDoorbell? || a.IsrEnter? || a.IsrGive? || a.IrqEnter? || a.IrqWake?
  }

  ghost predicate OfReceive(a: Action) {
    a.Service? || a.Check? || a.NextRead? || a.RxTake?
  }

  ghost predicate OfWake(a: Action) {
    OfIrq(a) || OfReceive(a)
  }

  lemma IrqStep(s: State, a: Action)
    requires Ready(s, a) && OfIrq(a)
    ensures SameCalls(s, Next(s, a)) && Spares(s, Next(s, a))
  {
    hide RequestValid, Return, Decided;
  }

  lemma ReceiveStep(s: State, a: Action)
    requires Ready(s, a) && OfReceive(a)
    ensures SameCalls(s, Next(s, a)) && Spares(s, Next(s, a))
  {
    hide RequestValid, Return, Decided;
  }

  /** The request in a call, and what the flash task has found: the two steps that matter. */
  lemma AnyStep(s: State, a: Action)
    requires Ready(s, a)
    ensures Taken(Next(s, a)) == if a.Call? then Taken(s) + [Asked(a.request)] else Taken(s)
    ensures a.Decide? ==> s.fpc.FDecide? && Next(s, a) == Decided(s, a.flashError) && Next(s, a).size == s.size
    ensures !a.Decide? ==> Spares(s, Next(s, a))
  {
    hide Next, Ready, Taken, Spares, Decided, SameCalls;
    if a.Call? {
      CallTaken(s, a.request);
    } else if a.LoadCmd? || a.LastLook? || a.LoadStatus? {
      ReplyStep(s, a);
    } else if a.Decide? {
      DecideIs(s, a.flashError);
      DecidedParts(s, a.flashError);
      SameParts(s, Next(s, a));
      SameTaken(s, Next(s, a));
    } else {
      if Loads(a) {
        LoadStep(s, a);
      } else if Completes(a) {
        CompleteStep(s, a);
      } else if OfIrq(a) {
        IrqStep(s, a);
      } else if OfReceive(a) {
        ReceiveStep(s, a);
      } else {
        OtherLinuxStep(s, a);
      }
      SameTaken(s, Next(s, a));
    }
  }

  lemma DecideIs(s: State, flashError: u32)
    requires Ready(s, Decide(flashError))
    ensures s.fpc.FDecide? && Next(s, Decide(flashError)) == Decided(s, flashError)
  {
    hide Decided;
  }

  lemma {:induction false} TakenIsAsked(s: State, run: seq<Action>)
    requires ValidRun(s, run)
    ensures Taken(After(s, run)) == Requests(run, Taken(s))
    decreases |run|
  {
    hide Next, Ready, Taken, Asked;
    if run != [] {
      AnyStep(s, run[0]);
      TakenIsAsked(Next(s, run[0]), run[1..]);
    }
  }

  /** Each reply goes to its call: the k-th one is about the request of the k-th call, word for word,
      and the call that runs has the request of the last one. */
  lemma RepliesAreOfCalls(s: State, run: seq<Action>)
    requires Init(s) && ValidRun(s, run)
    ensures var e, calls := After(s, run), Requests(run, []);
            && |calls| == |e.returned| + (if e.lpc.LIdle? then 0 else 1)
            && (forall k :: 0 <= k < |e.returned| ==> e.returned[k].request == calls[k])
            && (!e.lpc.LIdle? ==> e.request == calls[|calls| - 1])
  {
    hide After, ValidRun, Requests;
    assert Taken(s) == [];
    TakenIsAsked(s, run);
  }

  // ---- The answers of the flash ----

  /** The errors after one more step. */
  ghost function MoreErrors(s: State, a: Action, errors: seq<u32>): seq<u32> {
    if a.Decide? && s.fpc.FDecide? && s.fpc.cmd != 0 then errors + [a.flashError] else errors
  }

  /** The errors of the flash for the commands that the flash task has found, in order. */
  ghost function Errors(s: State, run: seq<Action>, acc: seq<u32>): seq<u32>
    requires ValidRun(s, run)
    decreases |run|
  {
    if run == [] then acc
    else
      var a := run[0];
      Errors(Next(s, a), run[1..], MoreErrors(s, a, acc))
  }

  /** A request that the firmware takes has the status of the flash, another one that of a bad
      argument. */
  ghost predicate StatusesOk(size: nat, served: seq<Served>, errors: seq<u32>) {
    |served| == |errors| &&
    forall i :: 0 <= i < |served| ==>
      var r := served[i].request;
      served[i].status == if RequestValid(size, r.cmd, r.addr, r.len) then errors[i] else ESP_ERR_INVALID_ARG
  }

  lemma StatusStep(s: State, a: Action, errors: seq<u32>)
    requires Ready(s, a) && StatusesOk(s.size, s.served, errors)
    ensures Next(s, a).size == s.size
    ensures StatusesOk(s.size, Next(s, a).served, MoreErrors(s, a, errors))
  {
    hide Next, Ready, Decided, RequestValid, Taken;
    AnyStep(s, a);
    if a.Decide? {
      DecideStep(s, a.flashError);
    }
  }

  lemma {:induction false} StatusesAreErrors(s: State, run: seq<Action>, errors: seq<u32>)
    requires ValidRun(s, run) && StatusesOk(s.size, s.served, errors)
    ensures After(s, run).size == s.size
    ensures StatusesOk(s.size, After(s, run).served, Errors(s, run, errors))
    decreases |run|
  {
    hide Next, Ready, StatusesOk, MoreErrors;
    if run != [] {
      StatusStep(s, run[0], errors);
      StatusesAreErrors(Next(s, run[0]), run[1..], MoreErrors(s, run[0], errors));
    }
  }

  /** A reply of 0 or -EIO is about the call's own request, never about a late one.  It is the answer
      for posting number `p`, where `p` calls before it were not refused: 0 exactly when the firmware
      takes the request of the call and the flash had no error for it. */
  ghost predicate ReplyIsExact(size: nat, call: Request, reply: Reply, p: nat, errors: seq<u32>) {
    reply.Done? || reply.IoError? ==>
      p < |errors| && (reply.Done? <==> RequestValid(size, call.cmd, call.addr, call.len) && errors[p] == 0)
  }

  lemma RepliesAreExact(s: State, run: seq<Action>)
    requires Init(s) && ValidRun(s, run)
    ensures var e, calls := After(s, run), Requests(run, []);
            && e.size == s.size && |e.returned| <= |calls|
            && (forall k :: 0 <= k < |e.returned| ==>
                  var r := e.returned[k];
                  && r.request == calls[k]
                  && (!r.reply.Busy? ==> r.posting == Calls(e.returned[..k]))
                  && ReplyIsExact(s.size, calls[k], r.reply, Calls(e.returned[..k]), Errors(s, run, [])))
  {
    hide After, ValidRun, RequestValid, LinuxOk, FirmwareOk, Requests, Errors, Calls, Init;
    RunInv(s, run);
    RepliesAreOfCalls(s, run);
    StartStatuses(s);
    StatusesAreErrors(s, run, []);
  }

  lemma StartStatuses(s: State)
    requires Init(s)
    ensures StatusesOk(s.size, s.served, [])
  {
  }
}
