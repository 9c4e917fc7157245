/**
 Runs of the transport, and what they are about: the frames that the callers on both sides give to
 it, and the answers of the memory allocation of Linux.  These lists are read off the actions of the
 run, not off the state that the steps build.
 */
module TransportRuns {
  import opened Words
  import opened RingLayout
  import opened RingDirection
  import opened TwoHarts

  // ---- Runs ----

  /** Empty rings, whose counters start at any aligned value, and nobody in the middle. */
  ghost predicate InitDirection(d: Direction, link: Link) {
    && d.link == link && |d.ring.mem| == link.size
    && d.log.h == d.log.t && Aligned(d.log.h)
    && Wraps(d.ring.head, d.log.h) && Wraps(d.ring.tail, d.log.t)
    && d.log.pushed == d.log.flight == d.log.taken == d.log.delivered == [] && d.log.kept == []
    && d.pc.PIdle? && !d.kick && (d.cc.CAsleep? || d.cc.CLoad?)
  }

  ghost predicate Init(s: State) {
    && InitDirection(s.toFw, TO_FW) && InitDirection(s.toHost, TO_HOST)
    && s.host.queue == s.host.accepted == []
    && !s.host.paused && !s.host.quiesced && s.host.control.Steady?
  }

  ghost predicate ValidRun(s: State, run: seq<Action>)
    decreases |run|
  {
    run == [] || (Ready(s, run[0]) && ValidRun(Next(s, run[0]), run[1..]))
  }

  ghost function After(s: State, run: seq<Action>): State
    requires ValidRun(s, run)
    decreases |run|
  {
    if run == [] then s else After(Next(s, run[0]), run[1..])
  }

  lemma {:induction false} RunsJoin(s: State, first: seq<Action>, run: seq<Action>)
    requires ValidRun(s, first) && ValidRun(After(s, first), run)
    ensures ValidRun(s, first + run) && After(s, first + run) == After(After(s, first), run)
    decreases |first|
  {
    hide Ready, Next;
    var all := first + run;
    if first == [] {
      assert all == run;
    } else {
      assert all[0] == first[0] && all[1..] == first[1..] + run;
      RunsJoin(Next(s, first[0]), first[1..], run);
    }
  }

  lemma InitKeeps(s: State)
    requires Init(s)
    ensures Inv(s)
  {
    assert Counters(TO_FW, s.toFw.ring, s.toFw.log) && Counters(TO_HOST, s.toHost.ring, s.toHost.log);
    hide Counters, Wraps, Aligned, Copied, RecordLen;
  }

  lemma {:induction false} RunKeepsInv(s: State, run: seq<Action>)
    requires Inv(s) && ValidRun(s, run)
    ensures Inv(After(s, run))
    decreases |run|
  {
    hide Inv, Ready, Next;
    if run != [] {
      StepKeepsInv(s, run[0]);
      RunKeepsInv(Next(s, run[0]), run[1..]);
    }
  }

  lemma RunInv(s: State, run: seq<Action>)
    requires Init(s) && ValidRun(s, run)
    ensures Inv(After(s, run))
  {
    InitKeeps(s);
    hide Inv;
    RunKeepsInv(s, run);
  }

  // ---- The frames that Linux gives to the driver ----

  /** The driver refuses a frame only while a reset holds the queue or 256 frames wait. */
  ghost predicate Takes(host: Host) {
    !host.quiesced && |host.queue| < 256
  }

  /** The frames that the driver took and did not purge, with `acc` for those before the run: each
      write that is not refused adds its own frame, and a reset takes back as many as wait. */
  ghost function Accepted(s: State, run: seq<Action>, acc: seq<Bytes>): seq<Bytes>
    requires ValidRun(s, run)
    decreases |run|
  {
    if run == [] then acc
    else
      var a := run[0];
      Accepted(Next(s, a), run[1..],
               if a.HostWrite? && Takes(s.host) then acc + [a.f]
               else if a.Purge? && |s.host.queue| <= |acc| then acc[..|acc| - |s.host.queue|]
               else acc)
  }

  /** What one action does to the accepted frames, and when the driver takes frames at all. */
  lemma AcceptedStep(s: State, a: Action)
    requires Ready(s, a)
    ensures a.HostWrite? && Takes(s.host) ==> Next(s, a).host.accepted == s.host.accepted + [a.f]
    ensures a.Purge? ==>
              && |s.host.queue| <= |s.host.accepted|
              && Next(s, a).host.accepted == s.host.accepted[..|s.host.accepted| - |s.host.queue|]
    ensures !(a.HostWrite? && Takes(s.host)) && !a.Purge? ==> Next(s, a).host.accepted == s.host.accepted
    ensures Next(s, a).host.quiesced == (if a.Quiesce? then true else if a.Reinit? then false else s.host.quiesced)
  {
    hide Can, Do;
  }

  /** A reset holds the queue from its start to the end of the last one. */
  function Held(run: seq<Action>, before: bool): bool {
    if run == [] then before
    else Held(run[1..], if run[0].Quiesce? then true else if run[0].Reinit? then false else before)
  }

  lemma {:induction false} AcceptedIsLogged(s: State, run: seq<Action>)
    requires ValidRun(s, run)
    ensures After(s, run).host.accepted == Accepted(s, run, s.host.accepted)
    ensures After(s, run).host.quiesced == Held(run, s.host.quiesced)
    decreases |run|
  {
    hide Next, Ready, Takes;
    if run != [] {
      AcceptedStep(s, run[0]);
      AcceptedIsLogged(Next(s, run[0]), run[1..]);
    }
  }

  // ---- The frames that the firmware gives to its transport ----

  /** The frames of the writes of the firmware, but for those that ended in a timeout. */
  function Given(run: seq<Action>, acc: seq<Bytes>): seq<Bytes> {
    if run == [] then acc
    else
      var a := run[0];
      Given(run[1..], if a.FwWrite? then acc + [a.f]
                      else if a.FwTimeout? && acc != [] then acc[..|acc| - 1]
                      else acc)
  }

  /** The frame of a write that has not reached the ring. */
  function Pending(d: Direction): seq<Bytes> {
    if d.pc.PTry? || d.pc.PCopy? || d.pc.PSetWait? || d.pc.PGaveUp? then [d.frame] else []
  }

  lemma GivenInDirection(d: Direction, st: Step)
    requires Can(d, st)
    ensures var d' := Do(d, st); d'.log.pushed + Pending(d') == d.log.pushed + Pending(d)
  {
    hide Room, RecordLen, Slot, Record, BadLength, FromLe32;
  }

  lemma GivenStep(s: State, a: Action)
    requires Ready(s, a)
    ensures var d, d' := s.toHost, Next(s, a).toHost;
            d'.log.pushed + Pending(d') ==
              if a.FwWrite? then d.log.pushed + Pending(d) + [a.f]
              else if a.FwTimeout? then d.log.pushed
              else d.log.pushed + Pending(d)
    ensures a.FwTimeout? ==> Pending(s.toHost) == [s.toHost.frame]
  {
    hide Can, Do;
    if a.ToHost? {
      GivenInDirection(s.toHost, a.st);
    }
  }

  lemma {:induction false} GivenIsPushed(s: State, run: seq<Action>)
    requires ValidRun(s, run)
    ensures var d := After(s, run).toHost;
            d.log.pushed + Pending(d) == Given(run, s.toHost.log.pushed + Pending(s.toHost))
    decreases |run|
  {
    hide Next, Ready, Pending;
    if run != [] {
      GivenStep(s, run[0]);
      GivenIsPushed(Next(s, run[0]), run[1..]);
    }
  }

  // ---- The memory of Linux ----

  /** The answers that Linux got when it asked for memory for a frame of the firmware. */
  function Answers(run: seq<Action>, acc: seq<bool>): seq<bool> {
    if run == [] then acc
    else Answers(run[1..], if run[0].ToHost? && run[0].st.DoAlloc? then acc + [run[0].st.ok] else acc)
  }

  ghost predicate MemoryEnough(run: seq<Action>) {
    ToHost(DoAlloc(false)) !in run
  }

  /** The answer for the frame whose TAIL store is still ahead. */
  function Answered(cc: ConsumerPc): seq<bool> {
    if cc.CFrame? then [true] else if cc.CStoreTail? then [cc.keep] else []
  }

  lemma AnswersInDirection(d: Direction, st: Step)
    requires Can(d, st) && d.link.drops
    ensures var d' := Do(d, st);
            && d'.link == d.link
            && d'.log.kept + Answered(d'.cc) ==
                 if st.DoAlloc? then d.log.kept + Answered(d.cc) + [st.ok] else d.log.kept + Answered(d.cc)
  {
    hide Room, RecordLen, Slot, Record, BadLength, FromLe32;
  }

  lemma AnswersStep(s: State, a: Action)
    requires Ready(s, a) && s.toHost.link.drops
    ensures var d, d' := s.toHost, Next(s, a).toHost;
            && d'.link == d.link
            && d'.log.kept + Answered(d'.cc) ==
                 if a.ToHost? && a.st.DoAlloc? then d.log.kept + Answered(d.cc) + [a.st.ok]
                 else d.log.kept + Answered(d.cc)
  {
    hide Can, Do;
    if a.ToHost? {
      AnswersInDirection(s.toHost, a.st);
    }
  }

  lemma {:induction false} AnswersAreKept(s: State, run: seq<Action>)
    requires ValidRun(s, run) && s.toHost.link.drops
    ensures var d := After(s, run).toHost;
            d.log.kept + Answered(d.cc) == Answers(run, s.toHost.log.kept + Answered(s.toHost.cc))
    decreases |run|
  {
    hide Next, Ready, Answered;
    if run != [] {
      AnswersStep(s, run[0]);
      AnswersAreKept(Next(s, run[0]), run[1..]);
    }
  }

  lemma {:induction false} EnoughIsKept(run: seq<Action>, acc: seq<bool>)
    requires MemoryEnough(run)
    ensures acc <= Answers(run, acc)
    ensures forall i :: |acc| <= i < |Answers(run, acc)| ==> Answers(run, acc)[i]
  {
    if run != [] {
      var more := if run[0].ToHost? && run[0].st.DoAlloc? then acc + [run[0].st.ok] else acc;
      assert run[0] in run;
      EnoughIsKept(run[1..], more);
    }
  }
}
